/** The incremental reader of a chat completion stream. Bytes arrive in chunks; complete lines
    are taken off a buffer, data lines are collected, and a blank line turns them into an event.
    The grammar is a subset of section 9.2.6 (Interpreting an event stream) of the WHATWG HTML
    Standard. Decoding, JSON and the accumulator are functions handed to the reader. */
module ChatStream {
  import opened Common

  newtype byte = x: int | 0 <= x < 256

  const LF: byte := 10
  const CR: byte := 13
  const SIZE_LIMIT := 256 * 1024
  const DONE_EVENT := "[DONE]"

  datatype Call = OnText(text: string) | OnReasoning(text: string)

  datatype Failure = ResponseTooLarge | InvalidText | EventTooLarge | EndedEarly | EventRefused(reason: string)

  datatype Status = Open | Done | Failed(failure: Failure)

  /** What an event does to the accumulator, and the callbacks it fires. */
  datatype Effect<+A> = Accepted(acc: A, calls: seq<Call>) | Refused(acc: A, calls: seq<Call>, reason: string)

  /** `decode` is UTF-8 decoding, `finished` tells whether a finish reason was seen. */
  datatype Handler<!A> = Handler(
    decode: seq<byte> -> Option<string>,
    isSpace: char -> bool,
    accept: (A, string) -> Effect<A>,
    finished: A -> bool)

  datatype Parse<+A> = Parse(lines: seq<string>, acc: A, calls: seq<Call>, status: Status)

  function Start<A>(acc: A): Parse<A> {
    Parse([], acc, [], Open)
  }

  // ---------------------------------------------------------------- one line

  function StripCR(raw: seq<byte>): seq<byte> {
    if raw != [] && raw[|raw| - 1] == CR then StripCR(raw[..|raw| - 1]) else raw
  }

  function StripLeft(isSpace: char -> bool, s: string): string {
    if s != [] && isSpace(s[0]) then StripLeft(isSpace, s[1..]) else s
  }

  function TotalLength(lines: seq<string>): nat {
    if lines == [] then 0 else |lines[0]| + TotalLength(lines[1..])
  }

  function Join(lines: seq<string>): string {
    if lines == [] then ""
    else if |lines| == 1 then lines[0]
    else lines[0] + "\n" + Join(lines[1..])
  }

  function OnEvent<A>(h: Handler<A>, p: Parse<A>, event: string): Parse<A> {
    var q := p.(lines := []);
    if event == DONE_EVENT then
      q.(status := if h.finished(p.acc) then Done else Failed(EndedEarly))
    else
      match h.accept(p.acc, event)
      case Accepted(acc, calls) => q.(acc := acc, calls := p.calls + calls)
      case Refused(acc, calls, reason) =>
        q.(acc := acc, calls := p.calls + calls, status := Failed(EventRefused(reason)))
  }

  /** One complete line, without its line feed. */
  function OnLine<A>(h: Handler<A>, p: Parse<A>, raw: seq<byte>): Parse<A> {
    match h.decode(StripCR(raw))
    case None => p.(status := Failed(InvalidText))
    case Some(line) =>
      if "data:" <= line then
        var q := p.(lines := p.lines + [StripLeft(h.isSpace, line[5..])]);
        if TotalLength(q.lines) > SIZE_LIMIT then q.(status := Failed(EventTooLarge)) else q
      else if line == "" && p.lines != [] then OnEvent(h, p, Join(p.lines))
      else p
  }

  // ---------------------------------------------------------------- the buffer

  /** The line consumer behind the buffer: what a line does, and whether more is wanted. */
  datatype Consumer<!P> = Consumer(step: (P, seq<byte>) -> P, open: P -> bool)

  function Chat<A>(h: Handler<A>): Consumer<Parse<A>> {
    Consumer((p: Parse<A>, raw: seq<byte>) => OnLine(h, p, raw), (p: Parse<A>) => p.status == Open)
  }

  /** The end of a chunked read: where the consumer stands, or a size limit hit on the way. */
  datatype Reading<+P> = Parsed(state: P) | OverLimit(state: P)

  /** The position of the first line feed, or the length. */
  function FirstLF(bytes: seq<byte>): (i: nat)
    ensures i <= |bytes|
    ensures i < |bytes| ==> bytes[i] == LF
    ensures forall k :: 0 <= k < i ==> bytes[k] != LF
  {
    if bytes == [] || bytes[0] == LF then 0 else 1 + FirstLF(bytes[1..])
  }

  /** Takes complete lines off the buffer until none is left or the consumer has stopped. */
  function Drain<P>(c: Consumer<P>, p: P, buffer: seq<byte>): (P, seq<byte>)
    decreases |buffer|
  {
    var i := FirstLF(buffer);
    if !c.open(p) || i == |buffer| then (p, buffer)
    else Drain(c, c.step(p, buffer[..i]), buffer[i + 1..])
  }

  function Read<P>(c: Consumer<P>, p: P, buffer: seq<byte>, total: nat, chunks: seq<seq<byte>>,
                   maxBytes: nat): Reading<P>
    decreases |chunks|
  {
    if !c.open(p) || chunks == [] then Parsed(p)
    else
      var more := buffer + chunks[0];
      if total + |chunks[0]| > maxBytes || |more| > SIZE_LIMIT then OverLimit(p)
      else
        var (q, rest) := Drain(c, p, more);
        Read(c, q, rest, total + |chunks[0]|, chunks[1..], maxBytes)
  }

  method HandleLine<A>(h: Handler<A>, p: Parse<A>, raw: seq<byte>) returns (q: Parse<A>)
    ensures q == OnLine(h, p, raw)
  {
    q := p;
    var decoded := h.decode(StripCR(raw));
    if decoded.None? {
      q := q.(status := Failed(InvalidText));
      return;
    }
    var line := decoded.value;
    if "data:" <= line {
      q := q.(lines := q.lines + [StripLeft(h.isSpace, line[5..])]);
      if TotalLength(q.lines) > SIZE_LIMIT {
        q := q.(status := Failed(EventTooLarge));
      }
    } else if line == "" && q.lines != [] {
      var event := Join(q.lines);
      q := q.(lines := []);
      if event == DONE_EVENT {
        if !h.finished(q.acc) {
          q := q.(status := Failed(EndedEarly));
        } else {
          q := q.(status := Done);
        }
        return;
      }
      var effect := h.accept(q.acc, event);
      q := q.(acc := effect.acc, calls := q.calls + effect.calls);
      if effect.Refused? {
        q := q.(status := Failed(EventRefused(effect.reason)));
      }
    }
  }

  /** The inner loop: complete lines are taken off the buffer until the reader has stopped. */
  method DrainBuffer<A>(h: Handler<A>, start: Parse<A>, bytes: seq<byte>) returns (p: Parse<A>, buffer: seq<byte>)
    ensures (p, buffer) == Drain(Chat(h), start, bytes)
  {
    p, buffer := start, bytes;
    while p.status == Open && FirstLF(buffer) < |buffer|
      invariant Drain(Chat(h), p, buffer) == Drain(Chat(h), start, bytes)
      decreases |buffer|
    {
      var i := FirstLF(buffer);
      DrainStep(Chat(h), p, buffer, i);
      var raw := buffer[..i];
      buffer := buffer[i + 1..];
      p := HandleLine(h, p, raw);
    }
  }

  /** The outer loop, over the chunks. */
  method ReadChunks<A>(h: Handler<A>, acc: A, chunks: seq<seq<byte>>, maxBytes: nat) returns (r: Reading<Parse<A>>)
    ensures r == Read(Chat(h), Start(acc), [], 0, chunks, maxBytes)
  {
    var p := Start(acc);
    var buffer: seq<byte>, total: nat := [], 0;
    var n := 0;
    while p.status == Open && n < |chunks|
      invariant n <= |chunks|
      invariant Read(Chat(h), p, buffer, total, chunks[n..], maxBytes)
             == Read(Chat(h), Start(acc), [], 0, chunks, maxBytes)
      decreases |chunks| - n
    {
      var chunk := chunks[n];
      assert chunks[n..][1..] == chunks[n + 1..];
      if total + |chunk| > maxBytes || |buffer + chunk| > SIZE_LIMIT {
        return OverLimit(p);
      }
      p, buffer := DrainBuffer(h, p, buffer + chunk);
      total, n := total + |chunk|, n + 1;
    }
    r := Parsed(p);
  }

  // ---------------------------------------------------------------- the reference parser

  function Flatten(chunks: seq<seq<byte>>): seq<byte> {
    if chunks == [] then [] else chunks[0] + Flatten(chunks[1..])
  }

  /** The complete lines of an input, byte by byte; `line` is the line begun so far. A last line
      without a line feed is dropped. */
  function Lines(bytes: seq<byte>, line: seq<byte>): seq<seq<byte>> {
    if bytes == [] then []
    else if bytes[0] == LF then [line] + Lines(bytes[1..], [])
    else Lines(bytes[1..], line + [bytes[0]])
  }

  /** The lines in order, until the consumer stops. */
  function Fold<P>(c: Consumer<P>, p: P, lines: seq<seq<byte>>): P
    decreases |lines|
  {
    if !c.open(p) || lines == [] then p else Fold(c, c.step(p, lines[0]), lines[1..])
  }

  function ParseWhole<P>(c: Consumer<P>, p: P, bytes: seq<byte>): P {
    Fold(c, p, Lines(bytes, []))
  }

  // ---------------------------------------------------------------- chunks do not matter

  ghost predicate NoLF(line: seq<byte>) {
    forall k :: 0 <= k < |line| ==> line[k] != LF
  }

  lemma DrainStep<P>(c: Consumer<P>, p: P, buffer: seq<byte>, i: nat)
    requires c.open(p) && i == FirstLF(buffer) < |buffer|
    ensures Drain(c, p, buffer) == Drain(c, c.step(p, buffer[..i]), buffer[i + 1..])
  {
  }

  /** Draining in two portions ends like draining at once, and leaves the same buffer while more is wanted. */
  ghost predicate DrainsOn<P>(c: Consumer<P>, p: P, a: seq<byte>, b: seq<byte>) {
    var (q, rest) := Drain(c, p, a);
    if c.open(q) then Drain(c, p, a + b) == Drain(c, q, rest + b) else Drain(c, p, a + b).0 == q
  }

  lemma DrainsOnStep<P>(c: Consumer<P>, p: P, a: seq<byte>, b: seq<byte>, i: nat)
    requires c.open(p) && i == FirstLF(a) < |a| && DrainsOn(c, c.step(p, a[..i]), a[i + 1..], b)
    ensures DrainsOn(c, p, a, b)
  {
    FirstLFAppend(a, b);
    SplitAppend(a, b, i);
    DrainStep(c, p, a, i);
    DrainStep(c, p, a + b, i);
  }

  lemma {:induction false} DrainAppend<P>(c: Consumer<P>, p: P, a: seq<byte>, b: seq<byte>)
    ensures DrainsOn(c, p, a, b)
    decreases |a|
  {
    var i := FirstLF(a);
    if c.open(p) && i < |a| {
      DrainAppend(c, c.step(p, a[..i]), a[i + 1..], b);
      DrainsOnStep(c, p, a, b, i);
    }
  }

  /** What is left in the buffer is the end of it, without a line feed while more is wanted. */
  ghost predicate LeavesEnd<P>(c: Consumer<P>, p: P, buffer: seq<byte>) {
    var (q, rest) := Drain(c, p, buffer);
    && |rest| <= |buffer| && rest == buffer[|buffer| - |rest|..]
    && (c.open(q) ==> FirstLF(rest) == |rest|)
  }

  lemma LeavesEndStep<P>(c: Consumer<P>, p: P, buffer: seq<byte>, i: nat)
    requires c.open(p) && i == FirstLF(buffer) < |buffer| && LeavesEnd(c, c.step(p, buffer[..i]), buffer[i + 1..])
    ensures LeavesEnd(c, p, buffer)
  {
    DrainStep(c, p, buffer, i);
  }

  lemma {:induction false} DrainRest<P>(c: Consumer<P>, p: P, buffer: seq<byte>)
    ensures LeavesEnd(c, p, buffer)
    decreases |buffer|
  {
    var i := FirstLF(buffer);
    if c.open(p) && i < |buffer| {
      DrainRest(c, c.step(p, buffer[..i]), buffer[i + 1..]);
      LeavesEndStep(c, p, buffer, i);
    }
  }

  /** A read that hits no size limit ends like one drain of everything. */
  ghost predicate EndsLikeDrain<P>(c: Consumer<P>, p: P, buffer: seq<byte>, total: nat, chunks: seq<seq<byte>>,
                                   maxBytes: nat) {
    var r := Read(c, p, buffer, total, chunks, maxBytes);
    r.Parsed? ==> r.state == Drain(c, p, buffer + Flatten(chunks)).0
  }

  /** A chunked read that hits no size limit is one drain of the concatenation. */
  lemma {:induction false} ReadIsDrain<P>(c: Consumer<P>, p: P, buffer: seq<byte>, total: nat,
                                          chunks: seq<seq<byte>>, maxBytes: nat)
    requires c.open(p) ==> FirstLF(buffer) == |buffer|
    ensures EndsLikeDrain(c, p, buffer, total, chunks, maxBytes)
    decreases |chunks|
  {
    if c.open(p) {
      if chunks == [] {
        assert buffer + Flatten(chunks) == buffer;
      } else {
        var more := buffer + chunks[0];
        var (q, rest) := Drain(c, p, more);
        DrainRest(c, p, more);
        ReadIsDrain(c, q, rest, total + |chunks[0]|, chunks[1..], maxBytes);
        DrainAppend(c, p, more, Flatten(chunks[1..]));
        assert buffer + Flatten(chunks) == more + Flatten(chunks[1..]);
      }
    }
  }

  /** Draining is folding over the lines of the reference splitter. */
  ghost predicate FoldsAs<P>(c: Consumer<P>, p: P, line: seq<byte>, bytes: seq<byte>) {
    Drain(c, p, line + bytes).0 == Fold(c, p, Lines(bytes, line))
  }

  lemma FoldStep<P>(c: Consumer<P>, p: P, line: seq<byte>, lines: seq<seq<byte>>)
    ensures Fold(c, p, [line] + lines) == if c.open(p) then Fold(c, c.step(p, line), lines) else p
  {
    assert ([line] + lines)[1..] == lines;
  }

  lemma FoldsAtLF<P>(c: Consumer<P>, p: P, line: seq<byte>, bytes: seq<byte>)
    requires NoLF(line) && bytes != [] && bytes[0] == LF && FoldsAs(c, c.step(p, line), [], bytes[1..])
    ensures FoldsAs(c, p, line, bytes)
  {
    var all := line + bytes;
    FirstLFIs(all, |line|);
    assert all[..|line|] == line && all[|line| + 1..] == [] + bytes[1..];
    FoldStep(c, p, line, Lines(bytes[1..], []));
    if c.open(p) {
      DrainStep(c, p, all, |line|);
    }
  }

  lemma {:induction false} DrainIsFold<P>(c: Consumer<P>, p: P, line: seq<byte>, bytes: seq<byte>)
    requires NoLF(line)
    ensures FoldsAs(c, p, line, bytes)
    decreases |bytes|
  {
    if bytes == [] {
      assert line + bytes == line;
      FirstLFIs(line, |line|);
    } else if bytes[0] == LF {
      DrainIsFold(c, c.step(p, line), [], bytes[1..]);
      FoldsAtLF(c, p, line, bytes);
    } else {
      assert line + bytes == line + [bytes[0]] + bytes[1..];
      DrainIsFold(c, p, line + [bytes[0]], bytes[1..]);
    }
  }

  /** After [DONE] or an error nothing more is read. */
  lemma {:induction false} StoppedIgnoresRest<P>(c: Consumer<P>, p: P, lines: seq<seq<byte>>, more: seq<seq<byte>>)
    requires !c.open(Fold(c, p, lines))
    ensures Fold(c, p, lines + more) == Fold(c, p, lines)
    decreases |lines|
  {
    if c.open(p) && lines != [] {
      assert (lines + more)[1..] == lines[1..] + more;
      StoppedIgnoresRest(c, c.step(p, lines[0]), lines[1..], more);
    }
  }

  /** The incremental reader agrees with the whole-input parser unless it hits a size limit. */
  lemma ReadIsReference<P>(c: Consumer<P>, p: P, chunks: seq<seq<byte>>, maxBytes: nat)
    requires Read(c, p, [], 0, chunks, maxBytes).Parsed?
    ensures Read(c, p, [], 0, chunks, maxBytes).state == ParseWhole(c, p, Flatten(chunks))
  {
    ReadIsDrain(c, p, [], 0, chunks, maxBytes);
    DrainIsFold(c, p, [], Flatten(chunks));
    assert [] + Flatten(chunks) == Flatten(chunks);
  }

  /** Chunking independence: two splits of the same bytes that hit no size limit feed the
      accumulator the same events, fire the same callbacks and stop in the same way. */
  lemma ChunkingIndependence<A>(h: Handler<A>, acc: A, chunks: seq<seq<byte>>, others: seq<seq<byte>>, maxBytes: nat,
                                otherMax: nat)
    requires Flatten(chunks) == Flatten(others)
    requires Read(Chat(h), Start(acc), [], 0, chunks, maxBytes).Parsed?
    requires Read(Chat(h), Start(acc), [], 0, others, otherMax).Parsed?
    ensures Read(Chat(h), Start(acc), [], 0, chunks, maxBytes) == Read(Chat(h), Start(acc), [], 0, others, otherMax)
  {
    ReadIsReference(Chat(h), Start(acc), chunks, maxBytes);
    ReadIsReference(Chat(h), Start(acc), others, otherMax);
  }

  // ---------------------------------------------------------------- line feeds in a buffer

  lemma FirstLFIs(bytes: seq<byte>, i: nat)
    requires i <= |bytes| && (i < |bytes| ==> bytes[i] == LF) && forall k :: 0 <= k < i ==> bytes[k] != LF
    ensures FirstLF(bytes) == i
  {
  }

  lemma FirstLFAppend(a: seq<byte>, b: seq<byte>)
    requires FirstLF(a) < |a|
    ensures FirstLF(a + b) == FirstLF(a)
  {
    FirstLFIs(a + b, FirstLF(a));
  }

  lemma SplitAppend(a: seq<byte>, b: seq<byte>, i: nat)
    requires i < |a|
    ensures (a + b)[..i] == a[..i] && (a + b)[i + 1..] == a[i + 1..] + b
  {
  }
}
