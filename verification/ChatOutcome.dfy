/** What a chat completion stream comes to, told from its lines alone: which event completes it, and what
    ends it with which error. */
module ChatOutcome {
  import opened Common
  import opened ChatStream
  import opened ChatEvents
  import opened ChatLimits

  // ---------------------------------------------------------------- the grammar

  function Text<A>(h: Handler<A>, raw: seq<byte>): Option<string> {
    h.decode(StripCR(raw))
  }

  predicate IsData<A>(h: Handler<A>, raw: seq<byte>) {
    Text(h, raw).Some? && "data:" <= Text(h, raw).value
  }

  /** The payloads of the data lines behind the last blank line. */
  function Collected<A>(h: Handler<A>, lines: seq<seq<byte>>): seq<string> {
    if lines == [] then []
    else
      var n := |lines| - 1;
      if Text(h, lines[n]) == Some("") then []
      else
        Collected(h, lines[..n])
        + if IsData(h, lines[n]) then [StripLeft(h.isSpace, Text(h, lines[n]).value[5..])] else []
  }

  /** The last line is the blank one behind some data lines. */
  predicate EndsEvent<A>(h: Handler<A>, lines: seq<seq<byte>>) {
    lines != [] && Text(h, lines[|lines| - 1]) == Some("") && Collected(h, lines[..|lines| - 1]) != []
  }

  /** All events of some lines, each with its payload lines joined. */
  function Events<A>(h: Handler<A>, lines: seq<seq<byte>>): seq<string> {
    if lines == [] then []
    else
      var n := |lines| - 1;
      Events(h, lines[..n]) + if EndsEvent(h, lines) then [Join(Collected(h, lines[..n]))] else []
  }

  /** The accumulator after some events. */
  function Fed<A>(h: Handler<A>, acc: A, events: seq<string>): A {
    if events == [] then acc
    else h.accept(Fed(h, acc, events[..|events| - 1]), events[|events| - 1]).acc
  }

  /** The callbacks of some events. */
  function Fired<A>(h: Handler<A>, acc: A, events: seq<string>): seq<Call> {
    if events == [] then []
    else
      var n := |events| - 1;
      Fired(h, acc, events[..n]) + h.accept(Fed(h, acc, events[..n]), events[n]).calls
  }

  /** The accumulator after all events of some lines. */
  function AccOf<A>(h: Handler<A>, acc: A, lines: seq<seq<byte>>): A {
    Fed(h, acc, Events(h, lines))
  }

  function CallsOf<A>(h: Handler<A>, acc: A, lines: seq<seq<byte>>): seq<Call> {
    Fired(h, acc, Events(h, lines))
  }

  /** The line at position `n` lets the reader go on: it is text, it does not make its event too large, and an
      event it ends is not [DONE] and is accepted. */
  predicate GoesOnAt<A>(h: Handler<A>, acc: A, lines: seq<seq<byte>>, n: int) {
    0 <= n < |lines| ==>
      && Text(h, lines[n]).Some?
      && (IsData(h, lines[n]) ==> TotalLength(Collected(h, lines[..n + 1])) <= SIZE_LIMIT)
      && (EndsEvent(h, lines[..n + 1]) ==>
            var event := Join(Collected(h, lines[..n]));
            event != DONE_EVENT && h.accept(AccOf(h, acc, lines[..n]), event).Accepted?)
  }

  ghost predicate Quiet<A>(h: Handler<A>, acc: A, lines: seq<seq<byte>>) {
    forall n :: GoesOnAt(h, acc, lines, n)
  }

  /** The line at position `n` is read and does not let the reader go on. */
  ghost predicate LastRead<A>(h: Handler<A>, acc: A, lines: seq<seq<byte>>, n: int) {
    0 <= n < |lines| && Quiet(h, acc, lines[..n]) && !GoesOnAt(h, acc, lines, n)
  }

  /** The line at position `n` is read, and ends a [DONE] event after a finish reason. */
  ghost predicate CompletesAt<A>(h: Handler<A>, acc: A, lines: seq<seq<byte>>, n: int) {
    && 0 <= n < |lines| && Quiet(h, acc, lines[..n])
    && EndsEvent(h, lines[..n + 1]) && Join(Collected(h, lines[..n])) == DONE_EVENT
    && h.finished(AccOf(h, acc, lines[..n]))
  }

  // ---------------------------------------------------------------- the parser keeps to it

  /** Where the parser stands behind quiet lines. */
  function Standing<A>(h: Handler<A>, acc: A, lines: seq<seq<byte>>): Parse<A> {
    Parse(Collected(h, lines), AccOf(h, acc, lines), CallsOf(h, acc, lines), Open)
  }

  lemma EventOneMore<A>(h: Handler<A>, acc: A, lines: seq<seq<byte>>)
    requires lines != []
    ensures var n := |lines| - 1;
            var front, event := lines[..n], Join(Collected(h, lines[..n]));
            if EndsEvent(h, lines) then
              var effect := h.accept(AccOf(h, acc, front), event);
              AccOf(h, acc, lines) == effect.acc && CallsOf(h, acc, lines) == CallsOf(h, acc, front) + effect.calls
            else AccOf(h, acc, lines) == AccOf(h, acc, front) && CallsOf(h, acc, lines) == CallsOf(h, acc, front)
  {
    var n := |lines| - 1;
    var events := Events(h, lines[..n]);
    if EndsEvent(h, lines) {
      assert (events + [Join(Collected(h, lines[..n]))])[..|events|] == events;
    } else {
      assert events + [] == events;
    }
  }

  lemma QuietStep<A>(h: Handler<A>, acc: A, lines: seq<seq<byte>>)
    requires lines != [] && GoesOnAt(h, acc, lines, |lines| - 1)
    ensures OnLine(h, Standing(h, acc, lines[..|lines| - 1]), lines[|lines| - 1]) == Standing(h, acc, lines)
  {
    var n := |lines| - 1;
    assert lines[..n + 1] == lines;
    EventOneMore(h, acc, lines);
    assert Collected(h, lines[..n]) + [] == Collected(h, lines[..n]);
  }

  lemma QuietFront<A>(h: Handler<A>, acc: A, lines: seq<seq<byte>>, n: nat)
    requires n <= |lines|
    ensures Quiet(h, acc, lines) ==> Quiet(h, acc, lines[..n])
    ensures Quiet(h, acc, lines[..n]) ==> forall k :: k < n ==> GoesOnAt(h, acc, lines, k)
  {
    forall k ensures k < n ==> (GoesOnAt(h, acc, lines[..n], k) <==> GoesOnAt(h, acc, lines, k)) {
      if 0 <= k < n {
        assert lines[..n][..k] == lines[..k] && lines[..n][..k + 1] == lines[..k + 1];
      }
    }
  }

  lemma {:induction false} QuietFold<A>(h: Handler<A>, acc: A, lines: seq<seq<byte>>)
    requires Quiet(h, acc, lines)
    ensures Fold(Chat(h), Start(acc), lines) == Standing(h, acc, lines)
    decreases |lines|
  {
    if lines != [] {
      var n := |lines| - 1;
      QuietFront(h, acc, lines, n);
      QuietFold(h, acc, lines[..n]);
      QuietStep(h, acc, lines);
      FoldOneMore(Chat(h), Start(acc), lines);
    }
  }

  lemma FoldOneMore<P>(c: Consumer<P>, p: P, lines: seq<seq<byte>>)
    requires lines != []
    ensures var q := Fold(c, p, lines[..|lines| - 1]);
            Fold(c, p, lines) == if c.open(q) then c.step(q, lines[|lines| - 1]) else q
  {
    var n := |lines| - 1;
    assert lines == lines[..n] + [lines[n]];
    FoldConcat(c, p, lines[..n], [lines[n]]);
    var q := Fold(c, p, lines[..n]);
    assert [lines[n]][1..] == [];
    assert c.open(q) ==> Fold(c, q, [lines[n]]) == Fold(c, c.step(q, lines[n]), []);
  }

  lemma CollectedOneMore<A>(h: Handler<A>, lines: seq<seq<byte>>, n: nat)
    requires n < |lines|
    ensures IsData(h, lines[n]) ==>
              Collected(h, lines[..n + 1])
              == Collected(h, lines[..n]) + [StripLeft(h.isSpace, Text(h, lines[n]).value[5..])]
  {
    assert lines[..n + 1][..n] == lines[..n];
  }

  /** What such a line does. */
  lemma StopsAt<A>(h: Handler<A>, acc: A, lines: seq<seq<byte>>, n: nat)
    requires n < |lines| && !GoesOnAt(h, acc, lines, n)
    ensures var p := OnLine(h, Standing(h, acc, lines[..n]), lines[n]);
            && p.status != Open
            && (Text(h, lines[n]).None? ==> p.status == Failed(InvalidText))
            && (IsData(h, lines[n]) ==> p.status == Failed(EventTooLarge))
            && (!EndsEvent(h, lines[..n + 1]) ==>
                  p.acc == AccOf(h, acc, lines[..n]) && p.calls == CallsOf(h, acc, lines[..n]))
            && (EndsEvent(h, lines[..n + 1]) ==>
                  p == OnEvent(h, Standing(h, acc, lines[..n]), Join(Collected(h, lines[..n]))))
  {
    assert lines[..n + 1][..n] == lines[..n];
    CollectedOneMore(h, lines, n);
  }

  lemma FoldStops<P>(c: Consumer<P>, p: P, lines: seq<seq<byte>>, n: nat)
    requires n < |lines| && c.open(Fold(c, p, lines[..n])) && !c.open(c.step(Fold(c, p, lines[..n]), lines[n]))
    ensures Fold(c, p, lines) == c.step(Fold(c, p, lines[..n]), lines[n])
  {
    var front := lines[..n + 1];
    assert front[..n] == lines[..n] && lines == front + lines[n + 1..];
    FoldOneMore(c, p, front);
    StoppedIgnoresRest(c, p, front, lines[n + 1..]);
  }

  /** A line that does not let the reader go on is the last one read. */
  lemma StopFold<A>(h: Handler<A>, acc: A, lines: seq<seq<byte>>, n: nat)
    requires n < |lines| && Quiet(h, acc, lines[..n]) && !GoesOnAt(h, acc, lines, n)
    ensures Fold(Chat(h), Start(acc), lines) == OnLine(h, Standing(h, acc, lines[..n]), lines[n])
  {
    QuietFold(h, acc, lines[..n]);
    StopsAt(h, acc, lines, n);
    FoldStops(Chat(h), Start(acc), lines, n);
  }

  lemma {:induction false} FirstStop<A>(h: Handler<A>, acc: A, lines: seq<seq<byte>>) returns (n: nat)
    requires !Quiet(h, acc, lines)
    ensures n < |lines| && Quiet(h, acc, lines[..n]) && !GoesOnAt(h, acc, lines, n)
    decreases |lines|
  {
    n := |lines| - 1;
    QuietFront(h, acc, lines, n);
    if !Quiet(h, acc, lines[..n]) {
      var front := lines[..n];
      n := FirstStop(h, acc, front);
      assert front[..n] == lines[..n] && front[..n + 1] == lines[..n + 1];
    } else {
      assert exists k :: !GoesOnAt(h, acc, lines, k);
    }
  }

  // ---------------------------------------------------------------- the outcome

  datatype Outcome<+A> = Complete(acc: A, calls: seq<Call>) | Error(failure: Failure, calls: seq<Call>)

  /** The end of the stream: only [DONE] completes a response. */
  function Finish<A>(r: Reading<Parse<A>>): Outcome<A> {
    if r.OverLimit? then Error(ResponseTooLarge, r.state.calls)
    else
      match r.state.status
      case Done => Complete(r.state.acc, r.state.calls)
      case Open => Error(EndedEarly, r.state.calls)
      case Failed(f) => Error(f, r.state.calls)
  }

  /** What the last line read makes of the outcome: invalid text, an event too large, [DONE] with or without a
      finish reason before it, or an event that is refused. */
  ghost predicate TellsAt<A>(h: Handler<A>, acc: A, lines: seq<seq<byte>>, n: nat, outcome: Outcome<A>)
    requires n < |lines|
  {
    var known, calls := AccOf(h, acc, lines[..n]), CallsOf(h, acc, lines[..n]);
    && (Text(h, lines[n]).None? ==> outcome == Error(InvalidText, calls))
    && (IsData(h, lines[n]) ==> outcome == Error(EventTooLarge, calls))
    && (EndsEvent(h, lines[..n + 1]) ==>
          var event := Join(Collected(h, lines[..n]));
          if event == DONE_EVENT then
            outcome == if h.finished(known) then Complete(known, calls) else Error(EndedEarly, calls)
          else
            var effect := h.accept(known, event);
            effect.Refused? && outcome == Error(EventRefused(effect.reason), calls + effect.calls))
  }

  /** How the reading of some lines ends: complete if and only if [DONE] comes after a finish reason and nothing
      failed before, too early if no line ends it, and otherwise as the last line read tells. */
  ghost predicate Tells<A>(h: Handler<A>, acc: A, lines: seq<seq<byte>>, outcome: Outcome<A>) {
    && (outcome.Complete? <==> exists n :: CompletesAt(h, acc, lines, n))
    && (Quiet(h, acc, lines) ==> outcome == Error(EndedEarly, CallsOf(h, acc, lines)))
    && (forall n :: LastRead(h, acc, lines, n) ==> TellsAt(h, acc, lines, n, outcome))
  }

  /** Either all lines are quiet or exactly one is the last one read. */
  lemma OneLastRead<A>(h: Handler<A>, acc: A, lines: seq<seq<byte>>)
    ensures Quiet(h, acc, lines) <==> forall n :: !LastRead(h, acc, lines, n)
    ensures forall m, n :: LastRead(h, acc, lines, m) && LastRead(h, acc, lines, n) ==> m == n
  {
    if !Quiet(h, acc, lines) {
      var n := FirstStop(h, acc, lines);
      assert LastRead(h, acc, lines, n);
    }
    forall m, n | LastRead(h, acc, lines, m) && LastRead(h, acc, lines, n) ensures m == n {
      QuietFront(h, acc, lines, m);
      QuietFront(h, acc, lines, n);
    }
  }

  lemma CompletesIsLast<A>(h: Handler<A>, acc: A, lines: seq<seq<byte>>, n: int)
    requires CompletesAt(h, acc, lines, n)
    ensures LastRead(h, acc, lines, n)
  {
  }

  lemma LastReadTells<A>(h: Handler<A>, acc: A, lines: seq<seq<byte>>, n: nat)
    requires LastRead(h, acc, lines, n)
    ensures TellsAt(h, acc, lines, n, Finish(Parsed(Fold(Chat(h), Start(acc), lines))))
    ensures Finish(Parsed(Fold(Chat(h), Start(acc), lines))).Complete? <==> CompletesAt(h, acc, lines, n)
  {
    StopFold(h, acc, lines, n);
    StopsAt(h, acc, lines, n);
  }

  lemma OutcomeIsTold<A>(h: Handler<A>, acc: A, lines: seq<seq<byte>>)
    ensures Tells(h, acc, lines, Finish(Parsed(Fold(Chat(h), Start(acc), lines))))
  {
    OneLastRead(h, acc, lines);
    forall n | CompletesAt(h, acc, lines, n) ensures LastRead(h, acc, lines, n) {
      CompletesIsLast(h, acc, lines, n);
    }
    if Quiet(h, acc, lines) {
      QuietFold(h, acc, lines);
    } else {
      var n: int :| LastRead(h, acc, lines, n);
      LastReadTells(h, acc, lines, n);
    }
  }

  /** More is wanted if and only if all lines so far are quiet. */
  lemma OpenIsQuiet<A>(h: Handler<A>, acc: A, lines: seq<seq<byte>>)
    ensures var p := Fold(Chat(h), Start(acc), lines);
            (p.status == Open <==> Quiet(h, acc, lines)) && (p.status == Open ==> p == Standing(h, acc, lines))
  {
    if Quiet(h, acc, lines) {
      QuietFold(h, acc, lines);
    } else {
      var n := FirstStop(h, acc, lines);
      StopFold(h, acc, lines, n);
      StopsAt(h, acc, lines, n);
    }
  }

  /** The first `m` chunks are quiet, and the next one exceeds the total, or the buffer together with the line
      begun. */
  ghost predicate TooLargeAt<A>(h: Handler<A>, acc: A, chunks: seq<seq<byte>>, m: int, maxBytes: nat) {
    && 0 <= m < |chunks| && Quiet(h, acc, Lines(Flatten(chunks[..m]), []))
    && (|Flatten(chunks[..m + 1])| > maxBytes || |Begun(Flatten(chunks[..m]), [])| + |chunks[m]| > SIZE_LIMIT)
  }

  ghost predicate TooLarge<A>(h: Handler<A>, acc: A, chunks: seq<seq<byte>>, maxBytes: nat) {
    exists m :: TooLargeAt(h, acc, chunks, m, maxBytes)
  }

  lemma OverflowIsTooLarge<A>(h: Handler<A>, acc: A, chunks: seq<seq<byte>>, m: int, maxBytes: nat)
    ensures OverflowsAt(Chat(h), Start(acc), chunks, m, maxBytes) <==> TooLargeAt(h, acc, chunks, m, maxBytes)
  {
    if 0 <= m < |chunks| {
      OpenIsQuiet(h, acc, Lines(Flatten(chunks[..m]), []));
    }
  }

  /** What a reading that hits a limit returns. */
  lemma LimitIsTold<A>(h: Handler<A>, acc: A, chunks: seq<seq<byte>>, maxBytes: nat)
    ensures Read(Chat(h), Start(acc), [], 0, chunks, maxBytes).OverLimit? <==> TooLarge(h, acc, chunks, maxBytes)
    ensures forall m {:trigger TooLargeAt(h, acc, chunks, m, maxBytes)} ::
              TooLargeAt(h, acc, chunks, m, maxBytes)
              && (forall k :: 0 <= k < m ==> !TooLargeAt(h, acc, chunks, k, maxBytes))
              ==> Read(Chat(h), Start(acc), [], 0, chunks, maxBytes).state
                  == Standing(h, acc, Lines(Flatten(chunks[..m]), []))
  {
    var c, p := Chat(h), Start(acc);
    LimitHitIff(c, p, chunks, maxBytes);
    forall m ensures OverflowsAt(c, p, chunks, m, maxBytes) <==> TooLargeAt(h, acc, chunks, m, maxBytes) {
      OverflowIsTooLarge(h, acc, chunks, m, maxBytes);
    }
    forall m | TooLargeAt(h, acc, chunks, m, maxBytes)
               && (forall k :: 0 <= k < m ==> !TooLargeAt(h, acc, chunks, k, maxBytes))
      ensures Read(c, p, [], 0, chunks, maxBytes).state == Standing(h, acc, Lines(Flatten(chunks[..m]), []))
    {
      assert FirstOverflow(c, p, chunks, m, maxBytes);
      QuietFold(h, acc, Lines(Flatten(chunks[..m]), []));
    }
  }

  /** Each other end has an error of its own. */
  lemma ToldIsNotTooLarge<A>(h: Handler<A>, acc: A, lines: seq<seq<byte>>, outcome: Outcome<A>)
    requires Tells(h, acc, lines, outcome)
    ensures outcome.Error? ==> outcome.failure != ResponseTooLarge
  {
    OneLastRead(h, acc, lines);
    if n :| LastRead(h, acc, lines, n) {
      assert TellsAt(h, acc, lines, n, outcome);
    }
  }

  lemma ReadingIsTold<A>(h: Handler<A>, acc: A, chunks: seq<seq<byte>>, maxBytes: nat)
    ensures var outcome := Finish(Read(Chat(h), Start(acc), [], 0, chunks, maxBytes));
            && (TooLarge(h, acc, chunks, maxBytes) <==> outcome.Error? && outcome.failure == ResponseTooLarge)
            && (TooLarge(h, acc, chunks, maxBytes) || Tells(h, acc, Lines(Flatten(chunks), []), outcome))
  {
    LimitIsTold(h, acc, chunks, maxBytes);
    if !TooLarge(h, acc, chunks, maxBytes) {
      ReadIsReference(Chat(h), Start(acc), chunks, maxBytes);
      OutcomeIsTold(h, acc, Lines(Flatten(chunks), []));
      ToldIsNotTooLarge(h, acc, Lines(Flatten(chunks), []),
                        Finish(Read(Chat(h), Start(acc), [], 0, chunks, maxBytes)));
    }
  }

  /** The whole reading. Unless a chunk is too large while more is wanted, the response is complete if and only
      if some line ends a [DONE] event after a finish reason and nothing failed before, and then holds what was
      accumulated up to there; every other end is an error of its own. */
  method ReadChatStream<A>(h: Handler<A>, acc: A, chunks: seq<seq<byte>>, maxBytes: nat) returns (outcome: Outcome<A>)
    ensures TooLarge(h, acc, chunks, maxBytes) <==> outcome.Error? && outcome.failure == ResponseTooLarge
    ensures forall m {:trigger TooLargeAt(h, acc, chunks, m, maxBytes)} ::
              TooLargeAt(h, acc, chunks, m, maxBytes)
              && (forall k :: 0 <= k < m ==> !TooLargeAt(h, acc, chunks, k, maxBytes))
              ==> outcome.calls == CallsOf(h, acc, Lines(Flatten(chunks[..m]), []))
    ensures TooLarge(h, acc, chunks, maxBytes) || Tells(h, acc, Lines(Flatten(chunks), []), outcome)
  {
    var r := ReadChunks(h, acc, chunks, maxBytes);
    if r.OverLimit? {
      outcome := Error(ResponseTooLarge, r.state.calls);
    } else if r.state.status == Done {
      outcome := Complete(r.state.acc, r.state.calls);
    } else if r.state.status == Open {
      outcome := Error(EndedEarly, r.state.calls);
    } else {
      outcome := Error(r.state.status.failure, r.state.calls);
    }
    LimitIsTold(h, acc, chunks, maxBytes);
    ReadingIsTold(h, acc, chunks, maxBytes);
  }
}
