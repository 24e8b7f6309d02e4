/** What the lines of a stream do: an event that is written out comes back whole, in any chunks. */
module ChatEvents {
  import opened Common
  import opened ChatStream
  import opened ChatLimits

  // ---------------------------------------------------------------- texts

  /** Only carriage returns go from the end of a line, and all of them. */
  lemma {:induction false} StripCRIsExact(raw: seq<byte>)
    ensures StripCR(raw) <= raw && forall i :: |StripCR(raw)| <= i < |raw| ==> raw[i] == CR
    ensures StripCR(raw) == [] || StripCR(raw)[|StripCR(raw)| - 1] != CR
    decreases |raw|
  {
    if raw != [] && raw[|raw| - 1] == CR {
      StripCRIsExact(raw[..|raw| - 1]);
      assert forall i :: 0 <= i < |raw| - 1 ==> raw[..|raw| - 1][i] == raw[i];
    }
  }

  /** Only spaces go from the front of a payload, and all of them. */
  lemma {:induction false} StripLeftIsExact(isSpace: char -> bool, s: string)
    ensures var n := |s| - |StripLeft(isSpace, s)|;
            && 0 <= n && StripLeft(isSpace, s) == s[n..] && (forall i :: 0 <= i < n ==> isSpace(s[i]))
            && (n < |s| ==> !isSpace(s[n]))
    decreases |s|
  {
    if s != [] && isSpace(s[0]) {
      StripLeftIsExact(isSpace, s[1..]);
      assert forall i :: 0 < i < |s| ==> s[i] == s[1..][i - 1];
    }
  }

  /** Where the line at position `n` starts in the joined text. */
  function Place(lines: seq<string>, n: nat): nat {
    if n == 0 || lines == [] then 0 else |lines[0]| + 1 + Place(lines[1..], n - 1)
  }

  /** Joining puts every line at its place, each two apart by one line feed. */
  lemma {:induction false} JoinIsExact(lines: seq<string>, n: nat)
    requires n < |lines|
    ensures |Join(lines)| == TotalLength(lines) + |lines| - 1
    ensures var k := Place(lines, n);
            && k + |lines[n]| <= |Join(lines)| && Join(lines)[k..k + |lines[n]|] == lines[n]
            && (n + 1 < |lines| ==> k + |lines[n]| < |Join(lines)| && Join(lines)[k + |lines[n]|] == '\n')
    decreases |lines|
  {
    if |lines| > 1 {
      JoinIsExact(lines[1..], if n > 0 then n - 1 else 0);
      var rest := Join(lines[1..]);
      assert Join(lines) == (lines[0] + "\n") + rest;
      if n > 0 {
        var k := Place(lines[1..], n - 1);
        assert Join(lines)[|lines[0]| + 1 + k..|lines[0]| + 1 + k + |lines[n]|] == rest[k..k + |lines[n]|];
      }
    } else {
      assert lines == [lines[0]];
    }
  }

  // ---------------------------------------------------------------- whole events

  /** A data line of this payload, as the reader decodes it. */
  ghost predicate DataLine<A>(h: Handler<A>, raw: seq<byte>, payload: string) {
    match h.decode(StripCR(raw))
    case None => false
    case Some(line) => "data:" <= line && StripLeft(h.isSpace, line[5..]) == payload
  }

  ghost predicate BlankLine<A>(h: Handler<A>, raw: seq<byte>) {
    h.decode(StripCR(raw)) == Some("")
  }

  lemma {:induction false} TotalLengthConcat(a: seq<string>, b: seq<string>)
    ensures TotalLength(a + b) == TotalLength(a) + TotalLength(b)
    decreases |a|
  {
    if a == [] {
      assert a + b == b;
    } else {
      assert (a + b)[1..] == a[1..] + b;
      TotalLengthConcat(a[1..], b);
    }
  }

  lemma {:induction false} DataLinesCollect<A>(h: Handler<A>, p: Parse<A>, raws: seq<seq<byte>>, payloads: seq<string>)
    requires p.status == Open && |raws| == |payloads| && TotalLength(p.lines + payloads) <= SIZE_LIMIT
    requires forall i :: 0 <= i < |raws| ==> DataLine(h, raws[i], payloads[i])
    ensures Fold(Chat(h), p, raws) == p.(lines := p.lines + payloads)
    decreases |raws|
  {
    if raws == [] {
      assert p.lines + payloads == p.lines;
    } else {
      var q := OnLine(h, p, raws[0]);
      assert DataLine(h, raws[0], payloads[0]);
      assert p.lines + payloads == (p.lines + [payloads[0]]) + payloads[1..];
      TotalLengthConcat(p.lines + [payloads[0]], payloads[1..]);
      DataLinesCollect(h, q, raws[1..], payloads[1..]);
    }
  }

  lemma {:induction false} FoldConcat<P>(c: Consumer<P>, p: P, a: seq<seq<byte>>, b: seq<seq<byte>>)
    ensures Fold(c, p, a + b) == Fold(c, Fold(c, p, a), b)
    decreases |a|
  {
    if a == [] {
      assert a + b == b;
    } else {
      assert (a + b)[1..] == a[1..] + b;
      if c.open(p) {
        FoldConcat(c, c.step(p, a[0]), a[1..], b);
      }
    }
  }

  lemma {:induction false} LineSplits(begun: seq<byte>, line: seq<byte>, rest: seq<byte>)
    requires NoLF(line)
    ensures Lines(line + [LF] + rest, begun) == [begun + line] + Lines(rest, [])
    decreases |line|
  {
    var bytes := line + [LF] + rest;
    if line == [] {
      assert bytes[0] == LF && bytes[1..] == rest && begun + line == begun;
    } else {
      assert bytes[0] == line[0] && bytes[1..] == line[1..] + [LF] + rest;
      assert (begun + [line[0]]) + line[1..] == begun + line;
      LineSplits(begun + [line[0]], line[1..], rest);
    }
  }

  /** Splitting undoes writing the lines out. */
  lemma {:induction false} LinesRoundTrip(lines: seq<seq<byte>>)
    requires forall i :: 0 <= i < |lines| ==> NoLF(lines[i])
    ensures Lines(Terminated(lines), []) == lines
    decreases |lines|
  {
    if lines != [] {
      LineSplits([], lines[0], Terminated(lines[1..]));
      LinesRoundTrip(lines[1..]);
      assert [] + lines[0] == lines[0];
    }
  }

  /** An event written as data lines and a blank line, and read in any chunks that hit no limit, reaches
      the accumulator exactly once, with its payload lines joined. */
  lemma EventRoundTrip<A>(h: Handler<A>, acc: A, raws: seq<seq<byte>>, blank: seq<byte>, payloads: seq<string>,
                          chunks: seq<seq<byte>>, maxBytes: nat)
    requires payloads != [] && |raws| == |payloads| && TotalLength(payloads) <= SIZE_LIMIT
    requires forall i :: 0 <= i < |raws| ==> NoLF(raws[i]) && DataLine(h, raws[i], payloads[i])
    requires NoLF(blank) && BlankLine(h, blank)
    requires Flatten(chunks) == Terminated(raws + [blank])
    requires Read(Chat(h), Start(acc), [], 0, chunks, maxBytes).Parsed?
    ensures var p, event := Read(Chat(h), Start(acc), [], 0, chunks, maxBytes).state, Join(payloads);
            if event == DONE_EVENT then p == Parse([], acc, [], if h.finished(acc) then Done else Failed(EndedEarly))
            else
              match h.accept(acc, event)
              case Accepted(more, calls) => p == Parse([], more, calls, Open)
              case Refused(more, calls, reason) => p == Parse([], more, calls, Failed(EventRefused(reason)))
  {
    var c, p, lines := Chat(h), Start(acc), raws + [blank];
    ReadIsReference(c, p, chunks, maxBytes);
    LinesRoundTrip(lines);
    FoldConcat(c, p, raws, [blank]);
    assert p.lines + payloads == payloads;
    DataLinesCollect(h, p, raws, payloads);
    var q := p.(lines := payloads);
    assert Fold(c, q, [blank]) == Fold(c, OnLine(h, q, blank), []);
    assert p.(lines := []) == q.(lines := []);
    assert forall calls: seq<Call> :: [] + calls == calls;
  }

  /** Collected lines stay within the limit while the reader goes on, callbacks are only added, and only a
      blank line after data lines touches the accumulator. */
  lemma LineEffect<A>(h: Handler<A>, p: Parse<A>, raw: seq<byte>)
    requires p.status == Open && TotalLength(p.lines) <= SIZE_LIMIT
    ensures var q := OnLine(h, p, raw);
            && (q.status == Open ==> TotalLength(q.lines) <= SIZE_LIMIT)
            && p.calls <= q.calls
            && (q.acc != p.acc || q.calls != p.calls || q.status == Done ==> BlankLine(h, raw) && p.lines != [])
  {
  }
}
