/**
 What a run of the fast decoder has to keep, said without buffers: how the bytes produced so far,
 and the input position reached, relate to the reference decoder.
 */
module DecoderSpec {
  import opened Bytes
  import opened BlockFormat

  /** What partial decoding makes of any input, cut short or not, that has no offset 0: whole sequences, and of the
      last one the literals that are there. Nothing is said where a length is incomplete or runs too close to the
      end of the input to be read, or a match refers before the history. */
  function Readable(src: seq<byte>, i: nat, out: seq<byte>): Option<seq<byte>>
    decreases |src| - i
  {
    if i >= |src| then None
    else
      match ReadLength(src, High(src[i]), i + 1)
      case None => None
      case Some((n, j)) =>
        if j > |src| || (n >= RUN_MASK && j + RUN_MASK > |src|) then None
        else if |src| <= j + n + 2 then Some(out + src[j..Min(j + n, |src|)])
        else
          match ParseHead(src, i)
          case Full(s, next) =>
            if s.offset == 0 || s.offset > |out + s.literals| || next + 4 > |src| then None
            else Readable(src, next, CopyMatch(out + s.literals, s.offset, s.matchLen))
          case _ => None
  }

  lemma {:induction false} ReadableExtends(src: seq<byte>, i: nat, out: seq<byte>)
    requires Readable(src, i, out).Some?
    ensures out <= Readable(src, i, out).value
    decreases |src| - i
  {
    hide ReadLength, High, CopyMatch;
    var (n, j) := ReadLength(src, High(src[i]), i + 1).value;
    if |src| > j + n + 2 {
      var s, next := ParseHead(src, i).s, ParseHead(src, i).next;
      var o := out + s.literals;
      CopyMatchRepeats(o, s.offset, s.matchLen);
      ReadableExtends(src, next, CopyMatch(o, s.offset, s.matchLen));
      FrontOfCopy(out, s.literals, CopyMatch(o, s.offset, s.matchLen), Readable(src, i, out).value);
    }
  }

  lemma FrontOfCopy(out: seq<byte>, literals: seq<byte>, copy: seq<byte>, full: seq<byte>)
    requires out + literals <= copy <= full
    ensures out + literals <= full && out <= full
  {
    assert full[..|copy|] == copy && copy[..|out + literals|] == out + literals;
    assert full[..|out + literals|] == copy[..|out + literals|];
    assert (out + literals)[..|out|] == out;
  }

  /** A whole sequence, read with input left behind it. */
  lemma ReadableStep(src: seq<byte>, i: nat, out: seq<byte>, s: Sequence, next: nat)
    requires ParseHead(src, i) == Full(s, next) && next < |src|
    ensures Readable(src, i, out).Some? ==>
      && 1 <= s.offset <= |out + s.literals|
      && Readable(src, i, out) == Readable(src, next, CopyMatch(out + s.literals, s.offset, s.matchLen))
  {
  }

  /** Literals come first in what can be read. */
  lemma ReadableLiterals(src: seq<byte>, i: nat, out: seq<byte>, n: nat, j: nat, k: nat)
    requires i < |src| && ReadLength(src, High(src[i]), i + 1) == Some((n, j)) && k <= n && j + k <= |src|
    ensures Readable(src, i, out).Some? ==> out + src[j..j + k] <= Readable(src, i, out).value
  {
    hide ReadLength, High, CopyMatch;
    if Readable(src, i, out).Some? {
      if |src| <= j + n + 2 {
        assert src[j..j + k] <= src[j..Min(j + n, |src|)];
      } else {
        var s, next := ParseHead(src, i).s, ParseHead(src, i).next;
        var o := out + s.literals;
        CopyMatchRepeats(o, s.offset, s.matchLen);
        var copy := CopyMatch(o, s.offset, s.matchLen);
        ReadableExtends(src, next, copy);
        FrontOfCopy(out, s.literals, copy, Readable(src, i, out).value);
        LiteralsOfHead(src, i, s, next);
        ShorterLiterals(out, src, j, k, n, Readable(src, i, out).value);
      }
    }
  }

  /** Where the input ends in literals or right behind them, they are the last that can be read. */
  lemma ReadableEnds(src: seq<byte>, i: nat, out: seq<byte>, n: nat, j: nat, k: nat)
    requires i < |src| && ReadLength(src, High(src[i]), i + 1) == Some((n, j)) && j <= |src|
    requires (n < RUN_MASK || j + RUN_MASK <= |src|) && |src| <= j + n + 2 && k == Min(n, |src| - j)
    ensures Readable(src, i, out) == Some(out + src[j..j + k])
  {
  }

  lemma ShorterLiterals(out: seq<byte>, src: seq<byte>, j: nat, k: nat, n: nat, full: seq<byte>)
    requires k <= n && j + n <= |src| && out + src[j..j + n] <= full
    ensures out + src[j..j + k] <= full
  {
    FrontOfFront(out, src, j, k, n, full);
  }

  lemma ReadableMatch(src: seq<byte>, i: nat, out: seq<byte>, s: Sequence, next: nat, k: nat)
    requires ParseHead(src, i) == Full(s, next) && next < |src| && s.offset <= |out + s.literals| && k <= s.matchLen
    ensures Readable(src, i, out).Some? ==> CopyMatch(out + s.literals, s.offset, k) <= Readable(src, i, out).value
  {
    hide ReadLength, High, CopyMatch, ParseHead, Readable;
    ReadableStep(src, i, out, s, next);
    if Readable(src, i, out).Some? {
      var o := out + s.literals;
      var copy := CopyMatch(o, s.offset, s.matchLen);
      CopyMatchPrefix(o, s.offset, k, s.matchLen);
      ReadableExtends(src, next, copy);
      var full := Readable(src, i, out).value;
      assert full[..|copy|] == copy && copy[..|o| + k] == CopyMatch(o, s.offset, k);
      assert full[..|o| + k] == copy[..|o| + k];
    }
  }

  /** One decoding job: the input, the history it may refer to, the room for history and output
      together, and whether decoding may stop early. */
  datatype Task = Task(src: seq<byte>, init: seq<byte>, cap: nat, partial: bool) {

    /** Decoding from position `i` behind `out` gives what decoding everything gives. */
    ghost predicate Tracks(i: nat, out: seq<byte>) {
      Decode(src, 0, init) == Decode(src, i, out)
    }

    /** The block `b` stands at `i`, and the decoder must succeed on it: it obeys the parsing
        restrictions and never refers before the history; it ends the input and fits; or, when
        stopping early is allowed, it has no offset 0, and other bytes follow it only if the output is
        full by then. */
    ghost predicate Stands(i: nat, out: seq<byte>, b: Block) {
      && WellFormed(b) && At(src, i, Encode(b)) && EndsWell(b) && Run(out, b).Some?
      && if partial then OffsetsPositive(b) && (i + |Encode(b)| == |src| || cap <= |out| + OutLen(b))
         else i + |Encode(b)| == |src| && |out| + OutLen(b) <= cap
    }

    /** What stands at `i` completes `full`. */
    ghost predicate Leads(i: nat, out: seq<byte>, full: Option<seq<byte>>) {
      exists b :: Stands(i, out, b) && Run(out, b) == full
    }

    /** The input is `whole` cut short: a byte string that reads as a block from `i` on, without offset 0
        and without a reference before the history. */
    ghost predicate Cuts(whole: seq<byte>, i: nat, out: seq<byte>) {
      && src <= whole && Parse(whole, i).Some? && OffsetsPositive(Parse(whole, i).value)
      && Decode(whole, i, out).Some?
    }

    /** What is expected of `whole` does not change. */
    ghost predicate TracksCut(i: nat, out: seq<byte>) {
      forall whole :: Cuts(whole, 0, init) ==> Cuts(whole, i, out) && Decode(whole, i, out) == Decode(whole, 0, init)
    }

    /** `out` is the beginning of what any `whole` stands for. */
    ghost predicate Begins(out: seq<byte>) {
      forall whole :: Cuts(whole, 0, init) ==> out <= Decode(whole, 0, init).value
    }

    /** What can be read does not change. */
    predicate TracksRead(i: nat, out: seq<byte>) {
      Readable(src, 0, init).Some? ==> Readable(src, i, out) == Readable(src, 0, init)
    }

    /** `out` is all that can be read, as far as it is wanted. */
    predicate AllRead(out: seq<byte>) {
      Readable(src, 0, init).Some? ==>
        var full := Readable(src, 0, init).value; out == full[..Min(cap, |full|)]
    }

    /** The invariant between two sequences. */
    ghost predicate Inv(i: nat, out: seq<byte>) {
      && (if partial then TracksCut(i, out) && TracksRead(i, out) else Tracks(i, out))
      && (forall b :: Stands(0, init, b) ==> Leads(i, out, Run(init, b)))
    }

    /** `out` is the right result: all of it, or its beginning when decoding stopped early. */
    ghost predicate Finished(out: seq<byte>) {
      && (if partial then Begins(out) && AllRead(out) else Decode(src, 0, init) == Some(out))
      && (forall b :: Stands(0, init, b) ==>
            var full := Run(init, b).value; out == full[..Min(cap, |full|)])
    }

    ghost predicate Rejected() {
      && (forall b :: !Stands(0, init, b))
      && (partial ==> Readable(src, 0, init).None?)
    }
  }

  lemma StartHolds(task: Task)
    ensures task.Inv(0, task.init)
  {
  }

  /** What must stand at a token if a block is to be decoded from there. */
  lemma LiteralsExpected(task: Task, i: nat, out: seq<byte>, b: Block)
    requires task.Stands(i, out, b)
    ensures i < |task.src| && ReadLength(task.src, High(task.src[i]), i + 1).Some?
    ensures var (n, j) := ReadLength(task.src, High(task.src[i]), i + 1).value;
            && j + n <= |task.src|
            && task.src[j..j + n] == (if b.Last? then b.literals else b.first.literals)
            && (b.Last? && !task.partial ==> j + n == |task.src| && |out| + n <= task.cap)
            && (b.Last? && task.partial ==> j + n == |task.src| || task.cap <= |out| + n)
            && (b.More? ==> j + n + 8 <= |task.src| && (!task.partial ==> |out| + n + MF_LIMIT <= task.cap))
  {
    hide ReadLength, High, Nibble, LiteralPart;
    match b
    case Last(l, spare) =>
      LiteralsOfEncoding(task.src, i, l, spare);
    case More(s, rest) =>
      LiteralsOfMore(task.src, i, s, rest);
  }

  lemma LiteralsOfMore(src: seq<byte>, i: nat, s: Sequence, rest: Block)
    requires WellFormed(More(s, rest)) && EndsWell(More(s, rest)) && At(src, i, Encode(More(s, rest)))
    ensures i < |src| && ReadLength(src, High(src[i]), i + 1).Some?
    ensures var (n, j) := ReadLength(src, High(src[i]), i + 1).value;
            && n == |s.literals| && j + n + 8 <= |src| && src[j..j + n] == s.literals
            && j + n <= i + |EncodeSequence(s)| && i + |EncodeSequence(s)| + 6 <= |src|
            && At(src, i, EncodeSequence(s)) && At(src, i + |EncodeSequence(s)|, Encode(rest))
  {
    hide ReadLength, High, Nibble, LiteralPart;
    AtConcat(src, i, EncodeSequence(s), Encode(rest));
    var low := Nibble(s.matchLen - MIN_MATCH);
    AtConcat(src, i, LiteralPart(s.literals, low), MatchPart(s.offset, s.matchLen));
    LiteralsOfEncoding(src, i, s.literals, low);
    TailTakesSix(rest);
  }

  /** A whole sequence read where a block stands, with room behind its literals, is the block's. */
  lemma FullExpected(task: Task, i: nat, out: seq<byte>, b: Block, s: Sequence, next: nat)
    requires task.Stands(i, out, b) && ParseHead(task.src, i) == Full(s, next)
    requires task.partial ==> |out + s.literals| < task.cap
    ensures b.More? && b.first == s && next == i + |EncodeSequence(s)|
    ensures s.offset <= |out + s.literals| && (task.partial ==> 1 <= s.offset)
    ensures next + LAST_LITERALS + 1 <= |task.src|
    ensures !task.partial ==> |out + s.literals| + s.matchLen + LAST_LITERALS <= task.cap
    ensures task.Stands(next, CopyMatch(out + s.literals, s.offset, s.matchLen), b.rest)
    ensures Run(out, b) == Run(CopyMatch(out + s.literals, s.offset, s.matchLen), b.rest)
  {
    hide ReadLength, High, ParseHead, CopyMatch, Encode, EncodeSequence, Task.Stands;
    LiteralsExpected(task, i, out, b);
    LiteralsOfHead(task.src, i, s, next);
    StandsMore(task, i, out, b);
    ParseHeadFull(task.src, i, b.first, i + |EncodeSequence(b.first)|);
  }

  /** Where a sequence stands and the output is not full behind its literals, the rest stands behind it. */
  lemma StandsMore(task: Task, i: nat, out: seq<byte>, b: Block)
    requires task.Stands(i, out, b) && b.More? && (task.partial ==> |out + b.first.literals| < task.cap)
    ensures var s, next := b.first, i + |EncodeSequence(b.first)|;
            && WellFormedSequence(s) && At(task.src, i, EncodeSequence(s)) && next + LAST_LITERALS + 1 <= |task.src|
            && s.offset <= |out + s.literals| && (task.partial ==> 1 <= s.offset)
            && (!task.partial ==> |out + s.literals| + s.matchLen + LAST_LITERALS <= task.cap)
            && task.Stands(next, CopyMatch(out + s.literals, s.offset, s.matchLen), b.rest)
            && Run(out, b) == Run(CopyMatch(out + s.literals, s.offset, s.matchLen), b.rest)
  {
    hide ReadLength, High, CopyMatch, EncodeSequence, At;
    LiteralsOfMore(task.src, i, b.first, b.rest);
    CopyMatchRepeats(out + b.first.literals, b.first.offset, b.first.matchLen);
  }

  lemma LiteralsOfHead(src: seq<byte>, i: nat, s: Sequence, next: nat)
    requires ParseHead(src, i) == Full(s, next)
    ensures i < |src| && ReadLength(src, High(src[i]), i + 1).Some?
    ensures var (n, j) := ReadLength(src, High(src[i]), i + 1).value; j + n < |src| && src[j..j + n] == s.literals
  {
  }

  /** Where a match must follow, it can be read, and bytes follow it. */
  lemma MatchExpected(task: Task, i: nat, out: seq<byte>, b: Block, n: nat, j: nat)
    requires task.Stands(i, out, b) && i < |task.src|
    requires ReadLength(task.src, High(task.src[i]), i + 1) == Some((n, j)) && j + n < |task.src|
    requires task.partial ==> |out| + n < task.cap
    ensures b.More? && ParseHead(task.src, i).Full?
    ensures ParseHead(task.src, i).next + LAST_LITERALS + 1 <= |task.src|
  {
    LiteralsExpected(task, i, out, b);
    AtConcat(task.src, i, EncodeSequence(b.first), Encode(b.rest));
    ParseHeadFull(task.src, i, b.first, i + |EncodeSequence(b.first)|);
    TailTakesSix(b.rest);
  }

  // ----- Input that is cut short -----

  lemma {:induction false} ReadRunOfPrefix(src: seq<byte>, whole: seq<byte>, i: nat)
    requires src <= whole && ReadRun(src, i).Some?
    ensures ReadRun(whole, i) == ReadRun(src, i)
    decreases |src| - i
  {
    if src[i] >= 255 {
      ReadRunOfPrefix(src, whole, i + 1);
    }
  }

  /** A sequence that can be read stays what it is when more input follows. */
  lemma HeadOfPrefix(src: seq<byte>, whole: seq<byte>, i: nat, s: Sequence, next: nat)
    requires src <= whole && ParseHead(src, i) == Full(s, next)
    ensures ParseHead(whole, i) == Full(s, next)
  {
    hide LiteralPart, MatchPart;
    ParseHeadFull(src, i, s, next);
    ParseHeadFull(whole, i, s, next);
    assert whole[i..next] == src[i..next];
  }

  /** Literals that can be read, as far as they are there, come next in what is expected. */
  lemma LiteralsOfPrefix(task: Task, whole: seq<byte>, i: nat, out: seq<byte>, n: nat, j: nat, k: nat)
    requires task.Cuts(whole, i, out) && i < |task.src| && k <= n && j + k <= |task.src|
    requires ReadLength(task.src, High(task.src[i]), i + 1) == Some((n, j))
    ensures out + task.src[j..j + k] <= Decode(whole, i, out).value
  {
    hide High, Run, Parse, ReadLength;
    LengthOfPrefix(task.src, whole, High(task.src[i]), i + 1);
    var b := Parse(whole, i).value;
    LiteralsAreFront(out, b);
    WholeLiterals(whole, i, n, j);
    SliceOfPrefix(task.src, whole, j, k, n);
  }

  lemma LengthOfPrefix(src: seq<byte>, whole: seq<byte>, nibble: nat, i: nat)
    requires src <= whole && ReadLength(src, nibble, i).Some?
    ensures ReadLength(whole, nibble, i) == ReadLength(src, nibble, i)
  {
    if nibble >= 15 {
      ReadRunOfPrefix(src, whole, i);
    }
  }

  lemma SliceOfPrefix(src: seq<byte>, whole: seq<byte>, j: nat, k: nat, n: nat)
    requires src <= whole && j + k <= |src| && k <= n && j + n <= |whole|
    ensures src[j..j + k] <= whole[j..j + n]
  {
  }

  lemma WholeLiterals(whole: seq<byte>, i: nat, n: nat, j: nat)
    requires i < |whole| && ReadLength(whole, High(whole[i]), i + 1) == Some((n, j)) && Parse(whole, i).Some?
    ensures j + n <= |whole|
    ensures var b := Parse(whole, i).value; (if b.Last? then b.literals else b.first.literals) == whole[j..j + n]
  {
    hide High, ReadLength;
  }

  /** One sequence read from cut input. */
  lemma SequenceOfPrefix(task: Task, whole: seq<byte>, i: nat, out: seq<byte>, s: Sequence, next: nat)
    requires task.Cuts(whole, i, out) && ParseHead(task.src, i) == Full(s, next)
    ensures 1 <= s.offset <= |out + s.literals|
    ensures var o := CopyMatch(out + s.literals, s.offset, s.matchLen);
            task.Cuts(whole, next, o) && Decode(whole, next, o) == Decode(whole, i, out)
  {
    hide ParseHead, CopyMatch;
    HeadOfPrefix(task.src, whole, i, s, next);
  }

  lemma CutsStep(task: Task, i: nat, out: seq<byte>, s: Sequence, next: nat)
    requires task.TracksCut(i, out) && ParseHead(task.src, i) == Full(s, next) && s.offset <= |out + s.literals|
    ensures task.TracksCut(next, CopyMatch(out + s.literals, s.offset, s.matchLen))
  {
    forall whole | task.Cuts(whole, 0, task.init)
      ensures var o := CopyMatch(out + s.literals, s.offset, s.matchLen);
              task.Cuts(whole, next, o) && Decode(whole, next, o) == Decode(whole, 0, task.init)
    {
      hide *;
      TrackedCut(task, whole, i, out);
      SequenceOfPrefix(task, whole, i, out, s, next);
    }
  }

  lemma TrackedCut(task: Task, whole: seq<byte>, i: nat, out: seq<byte>)
    requires task.TracksCut(i, out) && task.Cuts(whole, 0, task.init)
    ensures task.Cuts(whole, i, out) && Decode(whole, i, out) == Decode(whole, 0, task.init)
  {
  }

  /** Literals copied from cut input, as many as are wanted and there. */
  lemma CutLiteralsBegin(task: Task, i: nat, out: seq<byte>, n: nat, j: nat, k: nat)
    requires task.TracksCut(i, out) && i < |task.src| && k <= n && j + k <= |task.src|
    requires ReadLength(task.src, High(task.src[i]), i + 1) == Some((n, j))
    ensures task.Begins(out + task.src[j..j + k])
  {
    forall whole | task.Cuts(whole, 0, task.init)
      ensures out + task.src[j..j + k] <= Decode(whole, 0, task.init).value
    {
      hide *;
      TrackedCut(task, whole, i, out);
      LiteralsOfPrefix(task, whole, i, out, n, j, k);
    }
  }

  /** A match copied from cut input, as far as it is wanted. */
  lemma CutMatchBegins(task: Task, i: nat, out: seq<byte>, s: Sequence, next: nat, k: nat)
    requires task.TracksCut(i, out) && ParseHead(task.src, i) == Full(s, next)
    requires s.offset <= |out + s.literals| && k <= s.matchLen
    ensures task.Begins(CopyMatch(out + s.literals, s.offset, k))
  {
    forall whole | task.Cuts(whole, 0, task.init)
      ensures CopyMatch(out + s.literals, s.offset, k) <= Decode(whole, 0, task.init).value
    {
      hide ParseHead, Parse, CopyMatch, Run;
      TrackedCut(task, whole, i, out);
      SequenceOfPrefix(task, whole, i, out, s, next);
      MatchIsFront(out + s.literals, s.offset, k, s.matchLen, Parse(whole, next).value);
    }
  }

  // ----- Steps -----

  /** The invariant survives one whole sequence. */
  lemma SequenceStep(task: Task, i: nat, out: seq<byte>, s: Sequence, next: nat)
    requires task.Inv(i, out) && ParseHead(task.src, i) == Full(s, next) && next < |task.src|
    requires s.offset <= |out + s.literals| && (task.partial ==> |out + s.literals| < task.cap)
    ensures task.Inv(next, CopyMatch(out + s.literals, s.offset, s.matchLen))
  {
    if task.partial {
      CutsStep(task, i, out, s, next);
      ReadableStep(task.src, i, out, s, next);
    }
    var o := CopyMatch(out + s.literals, s.offset, s.matchLen);
    forall b | task.Stands(0, task.init, b)
      ensures task.Leads(next, o, Run(task.init, b))
    {
      var r :| task.Stands(i, out, r) && Run(out, r) == Run(task.init, b);
      FullExpected(task, i, out, r, s, next);
    }
  }

  lemma FinalExpected(task: Task, i: nat, out: seq<byte>, b: Block, l: seq<byte>, spare: nat)
    requires task.Stands(i, out, b) && ParseHead(task.src, i) == Final(l, spare)
    ensures b.Last? && b.literals == l
  {
    LiteralsExpected(task, i, out, b);
    assert task.src[|task.src| - |l|..] == task.src[|task.src| - |l|..|task.src|];
  }

  lemma LastBegins(task: Task, i: nat, out: seq<byte>, l: seq<byte>, spare: nat)
    requires task.TracksCut(i, out) && ParseHead(task.src, i) == Final(l, spare)
    ensures task.Begins(out + l)
  {
    hide Task.TracksCut, Task.Begins;
    CutLiteralsBegin(task, i, out, |l|, |task.src| - |l|, |l|);
    assert task.src[|task.src| - |l|..|task.src| - |l| + |l|] == l;
  }

  lemma LastDecodes(task: Task, i: nat, out: seq<byte>, l: seq<byte>, spare: nat)
    requires task.Tracks(i, out) && ParseHead(task.src, i) == Final(l, spare)
    ensures Decode(task.src, 0, task.init) == Some(out + l)
  {
  }

  lemma LastIsRead(task: Task, i: nat, out: seq<byte>, l: seq<byte>, spare: nat)
    requires task.TracksRead(i, out) && ParseHead(task.src, i) == Final(l, spare) && |out| + |l| <= task.cap
    ensures task.AllRead(out + l)
  {
    if Readable(task.src, i, out).Some? {
      var (n, j) := ReadLength(task.src, High(task.src[i]), i + 1).value;
      hide ReadLength, High;
      ReadableEnds(task.src, i, out, n, j, n);
    }
  }

  /** The last literals end the job. */
  lemma LastStep(task: Task, i: nat, out: seq<byte>, l: seq<byte>, spare: nat)
    requires task.Inv(i, out) && ParseHead(task.src, i) == Final(l, spare)
    requires |out| + |l| <= task.cap
    ensures task.Finished(out + l)
  {
    hide Readable, ParseHead, Task.Begins, Task.TracksCut, Task.AllRead, Task.TracksRead;
    if task.partial {
      LastBegins(task, i, out, l, spare);
      LastIsRead(task, i, out, l, spare);
    } else {
      LastDecodes(task, i, out, l, spare);
    }
    forall b | task.Stands(0, task.init, b)
      ensures var full := Run(task.init, b).value; out + l == full[..Min(task.cap, |full|)]
    {
      var r :| task.Stands(i, out, r) && Run(out, r) == Run(task.init, b);
      FinalExpected(task, i, out, r, l, spare);
    }
  }

  /** A full output that begins what can be read is all that is wanted of it. */
  lemma FullIsAll(task: Task, i: nat, out: seq<byte>, full: seq<byte>)
    requires task.TracksRead(i, out) && |full| == task.cap
    requires Readable(task.src, i, out).Some? ==> full <= Readable(task.src, i, out).value
    ensures task.AllRead(full)
  {
    hide Readable;
  }

  /** Stopping inside the literals when the output is full. */
  lemma StopInLiterals(task: Task, i: nat, out: seq<byte>, n: nat, j: nat, k: nat)
    requires task.partial && task.Inv(i, out) && i < |task.src|
    requires ReadLength(task.src, High(task.src[i]), i + 1) == Some((n, j)) && k <= n && j + k <= |task.src|
    requires |out| + k == task.cap
    ensures task.Finished(out + task.src[j..j + k])
  {
    hide High, ReadLength, Run, At, Encode, EndsWell, OffsetsPositive, WellFormed, Task.Begins, Task.TracksCut,
        Task.TracksRead, Task.AllRead, Readable;
    CutLiteralsBegin(task, i, out, n, j, k);
    ReadableLiterals(task.src, i, out, n, j, k);
    FullIsAll(task, i, out, out + task.src[j..j + k]);
    forall b | task.Stands(0, task.init, b)
      ensures var full := Run(task.init, b).value; out + task.src[j..j + k] == full[..Min(task.cap, |full|)]
    {
      var r :| task.Stands(i, out, r) && Run(out, r) == Run(task.init, b);
      LiteralsExpected(task, i, out, r);
      LiteralsAreFront(out, r);
      FrontOfFront(out, task.src, j, k, n, Run(out, r).value);
    }
  }

  lemma FrontOfFront(out: seq<byte>, src: seq<byte>, j: nat, k: nat, n: nat, full: seq<byte>)
    requires k <= n && j + n <= |src| && out + src[j..j + n] <= full
    ensures out + src[j..j + k] == full[..|out| + k]
  {
    assert full[..|out| + n] == out + src[j..j + n];
    assert full[..|out| + k] == full[..|out| + n][..|out| + k];
  }

  /** Expansion starts with what is there and the first literals. */
  lemma LiteralsAreFront(out: seq<byte>, b: Block)
    requires Run(out, b).Some?
    ensures out + (if b.Last? then b.literals else b.first.literals) <= Run(out, b).value
  {
    if b.More? {
      var o := out + b.first.literals;
      CopyMatchRepeats(o, b.first.offset, b.first.matchLen);
      RunExtends(CopyMatch(o, b.first.offset, b.first.matchLen), b.rest);
    }
  }

  /** A shorter copy is the beginning of a longer one. */
  lemma CopyMatchPrefix(out: seq<byte>, offset: nat, k: nat, n: nat)
    requires offset <= |out| && k <= n
    ensures |CopyMatch(out, offset, n)| == |out| + n
    ensures CopyMatch(out, offset, n)[..|out| + k] == CopyMatch(out, offset, k)
  {
    CopyMatchRepeats(out, offset, n);
    var r := CopyMatch(out, offset, n)[..|out| + k];
    assert r[..|out|] == CopyMatch(out, offset, n)[..|out|];
    RepeatsIsCopyMatch(out, offset, r);
  }

  /** Stopping inside a match when the output is full. */
  lemma StopInMatch(task: Task, i: nat, out: seq<byte>, s: Sequence, next: nat, k: nat)
    requires task.partial && task.Inv(i, out) && ParseHead(task.src, i) == Full(s, next) && next < |task.src|
    requires s.offset <= |out + s.literals| < task.cap && k <= s.matchLen && |out + s.literals| + k == task.cap
    ensures task.Finished(CopyMatch(out + s.literals, s.offset, k))
  {
    hide CopyMatch, ParseHead, Run, Readable, Task.Begins, Task.TracksCut, Task.TracksRead, Task.AllRead;
    CutMatchBegins(task, i, out, s, next, k);
    ReadableMatch(task.src, i, out, s, next, k);
    CopyMatchRepeats(out + s.literals, s.offset, k);
    FullIsAll(task, i, out, CopyMatch(out + s.literals, s.offset, k));
    var o := out + s.literals;
    forall b | task.Stands(0, task.init, b)
      ensures var full := Run(task.init, b).value; CopyMatch(o, s.offset, k) == full[..Min(task.cap, |full|)]
    {
      var r :| task.Stands(i, out, r) && Run(out, r) == Run(task.init, b);
      FullExpected(task, i, out, r, s, next);
      MatchIsFront(o, s.offset, k, s.matchLen, r.rest);
    }
  }

  /** Expansion behind a match starts with every shorter copy. */
  lemma MatchIsFront(out: seq<byte>, offset: nat, k: nat, n: nat, rest: Block)
    requires offset <= |out| && k <= n && Run(CopyMatch(out, offset, n), rest).Some?
    ensures var full := Run(CopyMatch(out, offset, n), rest).value;
            |out| + k <= |full| && full[..|out| + k] == CopyMatch(out, offset, k)
  {
    var c := CopyMatch(out, offset, n);
    CopyMatchPrefix(out, offset, k, n);
    RunExtends(c, rest);
    var full := Run(c, rest).value;
    assert full[..|c|] == c;
    assert full[..|out| + k] == c[..|out| + k];
  }

  // ----- Blocks that are cut in their last literals -----

  /** The literals that end a block. */
  function LastLiterals(b: Block): seq<byte>
    decreases b
  {
    match b
    case Last(l, _) => l
    case More(_, rest) => LastLiterals(rest)
  }

  lemma {:induction false} LastLiteralsFit(b: Block)
    requires WellFormed(b) && EndsWell(b)
    ensures |LastLiterals(b)| + 1 <= |Encode(b)| && |LastLiterals(b)| <= OutLen(b)
    ensures b.More? ==> LAST_LITERALS <= |LastLiterals(b)|
    decreases b
  {
    match b
    case Last(l, spare) => LastSize(l, spare);
    case More(s, rest) => LastLiteralsFit(rest);
  }

  lemma {:induction false} ReadRunOfFront(src: seq<byte>, whole: seq<byte>, i: nat)
    requires src <= whole && ReadRun(whole, i).Some? && ReadRun(whole, i).value.1 <= |src|
    ensures ReadRun(src, i) == ReadRun(whole, i)
    decreases |whole| - i
  {
    if whole[i] >= 255 {
      ReadRunOfFront(src, whole, i + 1);
    }
  }

  lemma LengthOfFront(src: seq<byte>, whole: seq<byte>, nibble: nat, i: nat)
    requires src <= whole && ReadLength(whole, nibble, i).Some? && ReadLength(whole, nibble, i).value.1 <= |src|
    ensures ReadLength(src, nibble, i) == ReadLength(whole, nibble, i)
  {
    if nibble >= 15 {
      ReadRunOfFront(src, whole, i);
    }
  }

  lemma HeadOfFront(src: seq<byte>, whole: seq<byte>, i: nat, s: Sequence, next: nat)
    requires src <= whole && ParseHead(whole, i) == Full(s, next) && next <= |src|
    ensures ParseHead(src, i) == Full(s, next)
  {
    hide LiteralPart, MatchPart;
    ParseHeadFull(src, i, s, next);
    ParseHeadFull(whole, i, s, next);
    assert whole[i..next] == src[i..next];
  }

  /** So many literals may be missing: three are left, or fifteen where their number takes extra bytes. */
  predicate MayMiss(literals: nat, missing: nat) {
    missing <= literals && (missing == 0 || missing + (if literals < RUN_MASK then 3 else RUN_MASK) <= literals)
  }

  lemma ReadableLast(whole: seq<byte>, i: nat, out: seq<byte>, l: seq<byte>, spare: nat, missing: nat)
    requires ParseHead(whole, i) == Final(l, spare) && MayMiss(|l|, missing)
    ensures Readable(whole[..|whole| - missing], i, out) == Some(out + l[..|l| - missing])
  {
    var src := whole[..|whole| - missing];
    var (n, j) := ReadLength(whole, High(whole[i]), i + 1).value;
    assert n == |l| && j + n == |whole|;
    hide ReadLength, High;
    LengthOfFront(src, whole, High(whole[i]), i + 1);
    ReadableEnds(src, i, out, n, j, n - missing);
    assert src[j..j + (n - missing)] == whole[j..][..n - missing];
  }

  /** A block of which the last literals are cut off in part is read up to there: all data but the bytes missing. */
  lemma {:induction false} ReadableOfCut(whole: seq<byte>, i: nat, out: seq<byte>, b: Block, missing: nat)
    requires Parse(whole, i) == Some(b) && EndsWell(b) && OffsetsPositive(b) && Run(out, b).Some?
    requires MayMiss(|LastLiterals(b)|, missing)
    ensures missing <= |whole| && missing <= |Run(out, b).value|
    ensures Readable(whole[..|whole| - missing], i, out) == Some(Run(out, b).value[..|Run(out, b).value| - missing])
    decreases b
  {
    hide ReadLength, High, CopyMatch, Encode, EncodeSequence, Readable, ParseHead;
    ParseIffEncode(whole, i, b);
    LastLiteralsFit(b);
    RunExtends(out, b);
    match b
    case Last(l, spare) =>
      LastHead(whole, i, l, spare);
      ReadableLast(whole, i, out, l, spare, missing);
      assert (out + l)[..|out + l| - missing] == out + l[..|l| - missing];
    case More(s, rest) =>
      var next := ParseHead(whole, i).next;
      MoreHead(whole, i, s, rest);
      ParseIffEncode(whole, next, rest);
      LastLiteralsFit(rest);
      HeadOfFront(whole[..|whole| - missing], whole, i, s, next);
      ReadableMore(whole[..|whole| - missing], i, out, s, next);
      ReadableOfCut(whole, next, CopyMatch(out + s.literals, s.offset, s.matchLen), rest, missing);
  }

  lemma LastHead(whole: seq<byte>, i: nat, l: seq<byte>, spare: nat)
    requires Parse(whole, i) == Some(Last(l, spare))
    ensures ParseHead(whole, i) == Final(l, spare)
  {
  }

  lemma MoreHead(whole: seq<byte>, i: nat, s: Sequence, rest: Block)
    requires Parse(whole, i) == Some(More(s, rest))
    ensures ParseHead(whole, i).Full? && ParseHead(whole, i).s == s
    ensures Parse(whole, ParseHead(whole, i).next) == Some(rest)
  {
  }

  /** A sequence with at least four bytes behind it is read whole. */
  lemma ReadableMore(src: seq<byte>, i: nat, out: seq<byte>, s: Sequence, next: nat)
    requires ParseHead(src, i) == Full(s, next) && next + 4 <= |src| && 1 <= s.offset <= |out + s.literals|
    ensures Readable(src, i, out) == Readable(src, next, CopyMatch(out + s.literals, s.offset, s.matchLen))
  {
  }

  // ----- Offset 0 -----

  function ZeroBytes(n: nat): seq<byte> {
    seq(n, _ => 0)
  }

  /** A match at offset 0 stands for zeros. */
  lemma {:induction false} OffsetZeroIsZeros(out: seq<byte>, n: nat)
    ensures CopyMatch(out, 0, n) == out + ZeroBytes(n)
    decreases n
  {
    if n == 0 {
      assert out + ZeroBytes(0) == out;
    } else {
      OffsetZeroIsZeros(out + [0], n - 1);
      assert out + [0] + ZeroBytes(n - 1) == out + ZeroBytes(n);
    }
  }

  /** A literal, a match of `n` at offset 0, and five literals. */
  function OffsetZeroBlock(n: nat): Block {
    More(Sequence([9], 0, n), Last([1, 2, 3, 4, 5], 0))
  }

  /** Such a block is one the full decoder must decode, given room, to a literal, zeros and literals. */
  lemma OffsetZeroIsDecoded(n: nat, cap: nat)
    requires 7 <= n && n + 6 <= cap
    ensures WellFormed(OffsetZeroBlock(n))
    ensures Task(Encode(OffsetZeroBlock(n)), [], cap, false).Stands(0, [], OffsetZeroBlock(n))
    ensures Run([], OffsetZeroBlock(n)) == Some([9] + ZeroBytes(n) + [1, 2, 3, 4, 5])
  {
    var b := OffsetZeroBlock(n);
    assert [] + b.first.literals == [9];
    OffsetZeroIsZeros([9], n);
    assert Encode(b)[0..0 + |Encode(b)|] == Encode(b);
  }
}
