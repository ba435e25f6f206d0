/**
 Token counts captured from a streamed response while its bytes are passed on to the client.

 The writer sees the stream in arbitrary pieces.  `Lines` and `Rest` cut the whole stream at its
 newlines; the writer's state after any sequence of writes is one fold over the complete lines of
 the bytes forwarded so far.  JSON decoding is the parameter `decode`, from a line to the counts in
 it, or None when the line is not a JSON object.
 */
module UsageCapture {
  import opened Wrappers

  type Byte = b: int | 0 <= b < 256

  const NEWLINE: Byte := 10

  /** The counts in one decoded line; a count that is absent or not a number is None. */
  datatype Counts = Counts(prompt: Option<int>, eval: Option<int>)

  type Decoder = seq<Byte> -> Option<Counts>

  datatype UsageStats = UsageStats(promptTokens: int, evalTokens: int)

  const NO_USAGE := UsageStats(0, 0)

  // ---------------------------------------------------------------------
  // Cutting a stream into lines
  // ---------------------------------------------------------------------

  /** The index of the first newline, or -1. */
  function NewlineAt(s: seq<Byte>): (at: int)
    ensures at == -1 ==> NEWLINE !in s
    ensures at != -1 ==> 0 <= at < |s| && s[at] == NEWLINE && NEWLINE !in s[..at]
  {
    if s == [] then -1
    else if s[0] == NEWLINE then 0
    else
      var at := NewlineAt(s[1..]);
      if at == -1 then -1 else assert s[..at + 1] == [s[0]] + s[1..][..at]; at + 1
  }

  /** The complete lines of a stream, without their newlines. */
  function Lines(s: seq<Byte>): seq<seq<Byte>>
    decreases |s|
  {
    var nl := NewlineAt(s);
    if nl == -1 then [] else [s[..nl]] + Lines(s[nl + 1..])
  }

  /** What follows the last newline. */
  function Rest(s: seq<Byte>): seq<Byte>
    decreases |s|
  {
    var nl := NewlineAt(s);
    if nl == -1 then s else Rest(s[nl + 1..])
  }

  /** The lines, each ended by a newline. */
  function Unlines(ls: seq<seq<Byte>>): seq<Byte> {
    if ls == [] then [] else ls[0] + [NEWLINE] + Unlines(ls[1..])
  }

  ghost predicate Unbroken(ls: seq<seq<Byte>>) {
    forall i :: 0 <= i < |ls| ==> NEWLINE !in ls[i]
  }

  lemma NewlineAtUnique(line: seq<Byte>, more: seq<Byte>)
    requires NEWLINE !in line
    ensures NewlineAt(line + [NEWLINE] + more) == |line|
  {
    var s := line + [NEWLINE] + more;
    var at := NewlineAt(s);
    assert s[|line|] == NEWLINE;
    assert forall i :: 0 <= i < |line| ==> s[i] == line[i];
  }

  /** Cutting off the first line. */
  lemma LinesStep(s: seq<Byte>)
    ensures var nl := NewlineAt(s);
      && Lines(s) == (if nl == -1 then [] else [s[..nl]] + Lines(s[nl + 1..]))
      && Rest(s) == (if nl == -1 then s else Rest(s[nl + 1..]))
  {
    hide NewlineAt;
  }

  lemma RegroupBytes(a: seq<Byte>, b: seq<Byte>, c: seq<Byte>)
    ensures a + (b + c) == a + b + c
  {
  }

  lemma NoUnlines()
    ensures Unlines([]) == []
  {
  }

  lemma UnlinesFirst(line: seq<Byte>, ls: seq<seq<Byte>>)
    ensures Unlines([line] + ls) == line + [NEWLINE] + Unlines(ls)
  {
    assert ([line] + ls)[1..] == ls;
  }

  lemma {:induction false} LinesConcat(s: seq<Byte>)
    ensures s == Unlines(Lines(s)) + Rest(s)
    decreases |s|
  {
    hide NewlineAt, Unlines, Lines, Rest;
    LinesStep(s);
    var nl := NewlineAt(s);
    if nl == -1 {
      NoUnlines();
      assert [] + s == s;
    } else {
      var line, more := s[..nl], s[nl + 1..];
      LinesConcat(more);
      UnlinesFirst(line, Lines(more));
      RegroupBytes(line + [NEWLINE], Unlines(Lines(more)), Rest(more));
      assert s == line + [NEWLINE] + more;
    }
  }

  lemma {:induction false} LinesUnbroken(s: seq<Byte>)
    ensures Unbroken(Lines(s)) && NEWLINE !in Rest(s)
    decreases |s|
  {
    hide NewlineAt, Lines, Rest;
    LinesStep(s);
    if NewlineAt(s) != -1 { LinesUnbroken(s[NewlineAt(s) + 1..]); }
  }

  lemma LinesJoin(s: seq<Byte>)
    ensures s == Unlines(Lines(s)) + Rest(s) && Unbroken(Lines(s)) && NEWLINE !in Rest(s)
  {
    hide Unlines, Lines, Rest;
    LinesConcat(s);
    LinesUnbroken(s);
  }

  lemma {:induction false} LinesUnique(ls: seq<seq<Byte>>, rest: seq<Byte>)
    requires Unbroken(ls) && NEWLINE !in rest
    ensures Lines(Unlines(ls) + rest) == ls && Rest(Unlines(ls) + rest) == rest
  {
    var s := Unlines(ls) + rest;
    if ls == [] {
      assert s == rest;
    } else {
      var more := Unlines(ls[1..]) + rest;
      assert s == ls[0] + [NEWLINE] + more;
      NewlineAtUnique(ls[0], more);
      assert s[..|ls[0]|] == ls[0] && s[|ls[0]| + 1..] == more;
      LinesUnique(ls[1..], rest);
    }
  }

  /** `Lines` and `Rest` are the one way to cut a stream at its newlines. */
  lemma {:induction false} LinesIffUnlines(s: seq<Byte>, ls: seq<seq<Byte>>, rest: seq<Byte>)
    ensures Lines(s) == ls && Rest(s) == rest <==> s == Unlines(ls) + rest && Unbroken(ls) && NEWLINE !in rest
    decreases |s|
  {
    LinesJoin(s);
    if s == Unlines(ls) + rest && Unbroken(ls) && NEWLINE !in rest { LinesUnique(ls, rest); }
  }

  lemma Regroup(done: seq<seq<Byte>>, line: seq<Byte>, more: seq<seq<Byte>>)
    ensures done + ([line] + more) == done + [line] + more
  {
  }

  lemma {:induction false} UnlinesAppend(ks: seq<seq<Byte>>, ls: seq<seq<Byte>>)
    ensures Unlines(ks + ls) == Unlines(ks) + Unlines(ls)
  {
    if ks == [] {
      assert ks + ls == ls;
    } else {
      UnlinesAppend(ks[1..], ls);
      assert (ks + ls)[1..] == ks[1..] + ls;
    }
  }

  /** Lines come out of two pieces as out of the whole, if the rest of the first is kept for the second. */
  lemma LinesOfPieces(a: seq<Byte>, b: seq<Byte>)
    ensures Lines(a + b) == Lines(a) + Lines(Rest(a) + b)
    ensures Rest(a + b) == Rest(Rest(a) + b)
  {
    hide Lines, Rest, Unlines;
    var c := Rest(a) + b;
    LinesJoin(a);
    LinesJoin(c);
    UnlinesAppend(Lines(a), Lines(c));
    var ls := Lines(a) + Lines(c);
    calc {
      a + b;
      Unlines(Lines(a)) + Rest(a) + b;
      { assert Unlines(Lines(a)) + Rest(a) + b == Unlines(Lines(a)) + c; }
      Unlines(Lines(a)) + (Unlines(Lines(c)) + Rest(c));
      Unlines(ls) + Rest(c);
    }
    LinesUnique(ls, Rest(c));
  }

  // ---------------------------------------------------------------------
  // One fold over the lines
  // ---------------------------------------------------------------------

  function Absorb(u: UsageStats, c: Option<Counts>): UsageStats {
    match c
    case None => u
    case Some(counts) =>
      UsageStats(
        if u.promptTokens == 0 && counts.prompt.Some? then counts.prompt.value else u.promptTokens,
        if counts.eval.Some? then counts.eval.value else u.evalTokens)
  }

  function Fold(decode: Decoder, u: UsageStats, ls: seq<seq<Byte>>): UsageStats
    decreases ls
  {
    if ls == [] then u else Absorb(Fold(decode, u, ls[..|ls|-1]), decode(ls[|ls|-1]))
  }

  lemma {:induction false} FoldAppend(decode: Decoder, u: UsageStats, ks: seq<seq<Byte>>, ls: seq<seq<Byte>>)
    ensures Fold(decode, u, ks + ls) == Fold(decode, Fold(decode, u, ks), ls)
    decreases ls
  {
    if ls == [] {
      assert ks + ls == ks;
    } else {
      var n := |ks + ls| - 1;
      assert (ks + ls)[..n] == ks + ls[..|ls|-1] && (ks + ls)[n] == ls[|ls|-1];
      FoldAppend(decode, u, ks, ls[..|ls|-1]);
    }
  }

  /** The usage of a whole stream. */
  function Captured(decode: Decoder, stream: seq<Byte>): UsageStats {
    Fold(decode, NO_USAGE, Lines(stream))
  }

  /** Line i carries the non-zero prompt count n. */
  ghost predicate Prompts(decode: Decoder, ls: seq<seq<Byte>>, i: int, n: int)
    requires 0 <= i < |ls|
  {
    decode(ls[i]).Some? && decode(ls[i]).value.prompt == Some(n) && n != 0
  }

  /** Line i carries the completion count n. */
  ghost predicate Evals(decode: Decoder, ls: seq<seq<Byte>>, i: int, n: int)
    requires 0 <= i < |ls|
  {
    decode(ls[i]).Some? && decode(ls[i]).value.eval == Some(n)
  }

  lemma {:induction false} NoPrompt(decode: Decoder, ls: seq<seq<Byte>>)
    requires forall j, m :: 0 <= j < |ls| ==> !Prompts(decode, ls, j, m)
    ensures Fold(decode, NO_USAGE, ls).promptTokens == 0
    decreases ls
  {
    if ls == [] {
    } else {
      var front, last := ls[..|ls|-1], |ls| - 1;
      assert forall j, m :: 0 <= j < last ==> Prompts(decode, ls, j, m) == Prompts(decode, front, j, m);
      NoPrompt(decode, front);
      var c := decode(ls[last]);
      if c.Some? && c.value.prompt.Some? {
        assert !Prompts(decode, ls, last, c.value.prompt.value);
      }
    }
  }

  /** The prompt count is the first non-zero one, and zero if there is none. */
  lemma {:induction false} PromptIsFirstNonZero(decode: Decoder, ls: seq<seq<Byte>>, i: int, n: int)
    requires 0 <= i < |ls| && Prompts(decode, ls, i, n)
    requires forall j, m :: 0 <= j < i ==> !Prompts(decode, ls, j, m)
    ensures Fold(decode, NO_USAGE, ls).promptTokens == n
    decreases ls
  {
    var front, last := ls[..|ls|-1], |ls| - 1;
    assert forall j, m :: 0 <= j < last ==> Prompts(decode, ls, j, m) == Prompts(decode, front, j, m);
    if i < last {
      PromptIsFirstNonZero(decode, front, i, n);
    } else {
      NoPrompt(decode, front);
    }
  }

  /** The completion count is the last one, and zero if there is none. */
  lemma {:induction false} EvalIsLast(decode: Decoder, ls: seq<seq<Byte>>, i: int, n: int)
    requires 0 <= i < |ls| && Evals(decode, ls, i, n)
    requires forall j, m :: i < j < |ls| ==> !Evals(decode, ls, j, m)
    ensures Fold(decode, NO_USAGE, ls).evalTokens == n
    decreases ls
  {
    var front, last := ls[..|ls|-1], |ls| - 1;
    if i < last {
      assert forall j, m :: 0 <= j < last ==> Evals(decode, ls, j, m) == Evals(decode, front, j, m);
      EvalIsLast(decode, front, i, n);
      var c := decode(ls[last]);
      if c.Some? && c.value.eval.Some? { assert Evals(decode, ls, last, c.value.eval.value); }
    }
  }

  lemma {:induction false} NoEval(decode: Decoder, ls: seq<seq<Byte>>)
    requires forall j, m :: 0 <= j < |ls| ==> !Evals(decode, ls, j, m)
    ensures Fold(decode, NO_USAGE, ls).evalTokens == 0
    decreases ls
  {
    if ls == [] {
    } else {
      var front, last := ls[..|ls|-1], |ls| - 1;
      assert forall j, m :: 0 <= j < last ==> Evals(decode, ls, j, m) == Evals(decode, front, j, m);
      NoEval(decode, front);
      var c := decode(ls[last]);
      if c.Some? && c.value.eval.Some? { assert Evals(decode, ls, last, c.value.eval.value); }
    }
  }

  // ---------------------------------------------------------------------
  // The writer's state, piece by piece
  // ---------------------------------------------------------------------

  /** The partial line and the counts so far. */
  datatype Capture = Capture(buf: seq<Byte>, usage: UsageStats)

  /** The state after parsing one more piece. */
  function Feed(decode: Decoder, c: Capture, p: seq<Byte>): Capture {
    Capture(Rest(c.buf + p), Fold(decode, c.usage, Lines(c.buf + p)))
  }

  function FeedAll(decode: Decoder, c: Capture, pieces: seq<seq<Byte>>): Capture
    decreases pieces
  {
    if pieces == [] then c else FeedAll(decode, Feed(decode, c, pieces[0]), pieces[1..])
  }

  function Concat(pieces: seq<seq<Byte>>): seq<Byte> {
    if pieces == [] then [] else pieces[0] + Concat(pieces[1..])
  }

  /** Parsing b after a is parsing a + b. */
  lemma FeedTwice(decode: Decoder, c: Capture, a: seq<Byte>, b: seq<Byte>)
    ensures Feed(decode, Feed(decode, c, a), b) == Feed(decode, c, a + b)
  {
    hide Lines, Rest, Fold;
    var first := c.buf + a;
    LinesOfPieces(first, b);
    assert first + b == c.buf + (a + b);
    FoldAppend(decode, c.usage, Lines(first), Lines(Rest(first) + b));
  }

  /** However a stream is split, the state is the partial last line and one fold over the complete lines. */
  lemma {:induction false} ChunkingIndependence(decode: Decoder, pieces: seq<seq<Byte>>, seen: seq<Byte>)
    ensures FeedAll(decode, Capture(Rest(seen), Captured(decode, seen)), pieces)
         == Capture(Rest(seen + Concat(pieces)), Captured(decode, seen + Concat(pieces)))
    decreases pieces
  {
    hide Lines, Rest, Fold;
    if pieces == [] {
      assert seen + Concat(pieces) == seen;
    } else {
      var c := Capture(Rest(seen), Captured(decode, seen));
      LinesOfPieces(seen, pieces[0]);
      FoldAppend(decode, NO_USAGE, Lines(seen), Lines(Rest(seen) + pieces[0]));
      ChunkingIndependence(decode, pieces[1..], seen + pieces[0]);
      assert seen + pieces[0] + Concat(pieces[1..]) == seen + Concat(pieces);
    }
  }

  lemma {:induction false} FeedAllIsFeed(decode: Decoder, c: Capture, pieces: seq<seq<Byte>>)
    requires NEWLINE !in c.buf
    ensures FeedAll(decode, c, pieces) == Feed(decode, c, Concat(pieces))
    decreases pieces
  {
    if pieces == [] {
      assert c.buf + [] == c.buf;
    } else {
      hide Lines, Rest;
      LinesJoin(c.buf + pieces[0]);
      FeedAllIsFeed(decode, Feed(decode, c, pieces[0]), pieces[1..]);
      FeedTwice(decode, c, pieces[0], Concat(pieces[1..]));
    }
  }

  /** Two ways of splitting one stream give the same state, from any state. */
  lemma SplitsAgree(decode: Decoder, c: Capture, pieces: seq<seq<Byte>>, others: seq<seq<Byte>>)
    requires Concat(pieces) == Concat(others) && NEWLINE !in c.buf
    ensures FeedAll(decode, c, pieces) == FeedAll(decode, c, others)
  {
    hide Feed, FeedAll;
    FeedAllIsFeed(decode, c, pieces);
    FeedAllIsFeed(decode, c, others);
  }

  // ---------------------------------------------------------------------
  // The code
  // ---------------------------------------------------------------------

  lemma FoldEmpty(decode: Decoder, u: UsageStats)
    ensures Fold(decode, u, []) == u
  {
  }

  lemma FoldLast(decode: Decoder, u: UsageStats, ls: seq<seq<Byte>>, line: seq<Byte>)
    ensures Fold(decode, u, ls + [line]) == Absorb(Fold(decode, u, ls), decode(line))
  {
    assert (ls + [line])[..|ls|] == ls;
  }

  class StreamingUsageCaptureWriter {
    const decode: Decoder
    var buf: seq<Byte>
    var promptTokens: int
    var evalTokens: int
    /** The bytes the underlying writer has accepted. */
    var forwarded: seq<Byte>

    ghost predicate Valid()
      reads this
    {
      State() == Capture(Rest(forwarded), Captured(decode, forwarded))
    }

    ghost function State(): Capture
      reads this
    {
      Capture(buf, Stats())
    }

    function Stats(): UsageStats
      reads this
    {
      UsageStats(promptTokens, evalTokens)
    }

    constructor (decode: Decoder)
      ensures Valid() && this.decode == decode && forwarded == []
    {
      this.decode := decode;
      buf, promptTokens, evalTokens, forwarded := [], 0, 0, [];
    }

    /** The underlying writer takes the first n bytes of p, or none if n is not positive. */
    method Write(p: seq<Byte>, n: int) returns (written: int)
      requires Valid() && n <= |p|
      modifies this
      ensures Valid() && written == n
      ensures forwarded == old(forwarded) + if n > 0 then p[..n] else []
    {
      written := n;
      if n <= 0 {
        assert forwarded == old(forwarded) + [];
        return;
      }
      forwarded := forwarded + p[..n];
      ParseForUsage(p[..n]);
      LinesOfPieces(old(forwarded), p[..n]);
      FoldAppend(decode, NO_USAGE, Lines(old(forwarded)), Lines(old(buf) + p[..n]));
    }

    method ParseForUsage(p: seq<Byte>)
      modifies this`buf, this`promptTokens, this`evalTokens
      ensures State() == Feed(decode, old(State()), p)
    {
      hide Fold, Lines, Rest, NewlineAt;
      buf := buf + p;
      ghost var all := buf;
      ghost var done: seq<seq<Byte>> := [];
      FoldEmpty(decode, Stats());
      while true
        invariant Lines(all) == done + Lines(buf) && Rest(all) == Rest(buf)
        invariant Stats() == Fold(decode, old(Stats()), done)
        decreases |buf|
      {
        LinesStep(buf);
        var nl := NewlineAt(buf);
        if nl == -1 {
          assert done + [] == done;
          return;
        }
        var line := buf[..nl];
        Regroup(done, line, Lines(buf[nl + 1..]));
        buf := buf[nl + 1..];
        FoldLast(decode, old(Stats()), done, line);
        done := done + [line];
        match decode(line) {
          case None =>
          case Some(chunk) =>
            if promptTokens == 0 {
              if chunk.prompt.Some? {
                promptTokens := chunk.prompt.value;
              }
            }
            if chunk.eval.Some? {
              evalTokens := chunk.eval.value;
            }
        }
      }
    }
  }

  /** The counts of a complete response body that is one JSON object. */
  function ExtractNonStreamingUsage(decode: Decoder, body: seq<Byte>): UsageStats {
    match decode(body)
    case None => NO_USAGE
    case Some(resp) =>
      UsageStats(resp.prompt.UnwrapOr(0), resp.eval.UnwrapOr(0))
  }

  /** Streaming one line captures what the non-streaming extraction finds in it. */
  lemma OneLineAgrees(decode: Decoder, line: seq<Byte>)
    requires NEWLINE !in line
    ensures Captured(decode, line + [NEWLINE]) == ExtractNonStreamingUsage(decode, line)
  {
    assert Unlines([line]) + [] == line + [NEWLINE];
    LinesUnique([line], []);
    FoldLast(decode, NO_USAGE, [], line);
    assert [] + [line] == [line];
  }
}
