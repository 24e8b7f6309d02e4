/** When the incremental reader hits no size limit: the exact condition over all splits into pieces
    of bounded size, and a simple sufficient one. */
module ChatLimits {
  import opened ChatStream

  // ---------------------------------------------------------------- exactly when no split hits a limit

  ghost predicate Pieces(chunks: seq<seq<byte>>, size: nat) {
    forall i :: 0 <= i < |chunks| ==> |chunks[i]| <= size
  }

  /** The largest piece that can follow position `at`. */
  function NextPiece(all: seq<byte>, at: nat, size: nat): nat
    requires at <= |all|
  {
    if size <= |all| - at then size else |all| - at
  }

  /** If the parser still wants more after `at` bytes, the unfinished line and the next piece fit. */
  ghost predicate FitsAt<P>(c: Consumer<P>, p: P, all: seq<byte>, at: int, size: nat, maxBytes: nat) {
    0 <= at < |all| && c.open(Drain(c, p, all[..at]).0) ==>
      && |Drain(c, p, all[..at]).1| + NextPiece(all, at, size) <= SIZE_LIMIT
      && at + NextPiece(all, at, size) <= maxBytes
  }

  /** The parser still wants more after `at` bytes. */
  ghost predicate Wants<P>(c: Consumer<P>, p: P, all: seq<byte>, at: int) {
    0 <= at <= |all| && c.open(Drain(c, p, all[..at]).0)
  }

  ghost predicate EverySplitParses<P>(c: Consumer<P>, p: P, all: seq<byte>, size: nat, maxBytes: nat) {
    forall chunks :: Flatten(chunks) == all && Pieces(chunks, size) ==> Read(c, p, [], 0, chunks, maxBytes).Parsed?
  }

  /** A reading stands at `at` and hits no limit from there on. */
  ghost predicate ParsesFrom<P>(
    c: Consumer<P>, p: P, all: seq<byte>, at: int, chunks: seq<seq<byte>>, maxBytes: nat) {
    && 0 <= at <= |all| && all[at..] == Flatten(chunks)
    && var (q, rest) := Drain(c, p, all[..at]); Read(c, q, rest, at, chunks, maxBytes).Parsed?
  }

  /** A reading that stands at `at` goes on from there without hitting a limit. */
  lemma {:induction false} FittingSplitParses<P>(
    c: Consumer<P>, p: P, all: seq<byte>, at: nat, chunks: seq<seq<byte>>, size: nat, maxBytes: nat)
    requires at <= |all| && at <= maxBytes && all[at..] == Flatten(chunks) && Pieces(chunks, size)
    requires forall k :: FitsAt(c, p, all, k, size, maxBytes)
    requires |Drain(c, p, all[..at]).1| <= SIZE_LIMIT
    ensures ParsesFrom(c, p, all, at, chunks, maxBytes)
    decreases |chunks|
  {
    if Wants(c, p, all, at) && chunks != [] {
      CutPiece(all, at, chunks);
      FittingPiece(c, p, all, at, chunks[0], size, maxBytes);
      FittingSplitParses(c, p, all, at + |chunks[0]|, chunks[1..], size, maxBytes);
    }
  }

  lemma FittingPiece<P>(c: Consumer<P>, p: P, all: seq<byte>, at: nat, piece: seq<byte>, size: nat, maxBytes: nat)
    requires at + |piece| <= |all| && all[..at + |piece|] == all[..at] + piece && |piece| <= size && at <= maxBytes
    requires FitsAt(c, p, all, at, size, maxBytes) && Wants(c, p, all, at)
    requires |Drain(c, p, all[..at]).1| <= SIZE_LIMIT
    ensures var (q, rest) := Drain(c, p, all[..at]);
            && |rest + piece| <= SIZE_LIMIT && at + |piece| <= maxBytes
            && (c.open(q) ==> Drain(c, p, all[..at + |piece|]) == Drain(c, q, rest + piece))
            && |Drain(c, p, all[..at + |piece|]).1| <= SIZE_LIMIT
  {
    var (q, rest) := Drain(c, p, all[..at]);
    DrainAppend(c, p, all[..at], piece);
    DrainRest(c, q, rest + piece);
  }

  lemma CutPiece(all: seq<byte>, at: nat, chunks: seq<seq<byte>>)
    requires at <= |all| && chunks != [] && all[at..] == Flatten(chunks)
    ensures var next := at + |chunks[0]|;
            next <= |all| && all[..next] == all[..at] + chunks[0] && all[next..] == Flatten(chunks[1..])
  {
    var next := at + |chunks[0]|;
    assert all[at..][..|chunks[0]|] == chunks[0] && all[at..][|chunks[0]|..] == Flatten(chunks[1..]);
  }

  lemma ParsesOn<P>(c: Consumer<P>, p: P, all: seq<byte>, at: nat, chunks: seq<seq<byte>>, maxBytes: nat)
    requires ParsesFrom(c, p, all, at, chunks, maxBytes) && chunks != [] && Wants(c, p, all, at)
    ensures |Drain(c, p, all[..at]).1| + |chunks[0]| <= SIZE_LIMIT && at + |chunks[0]| <= maxBytes
    ensures ParsesFrom(c, p, all, at + |chunks[0]|, chunks[1..], maxBytes)
  {
    CutPiece(all, at, chunks);
    DrainAppend(c, p, all[..at], chunks[0]);
  }

  /** A reading that has come to `k` hits no limit from there on, or wants nothing more. */
  ghost predicate GoesOn<P>(c: Consumer<P>, p: P, all: seq<byte>, k: int, chunks: seq<seq<byte>>, maxBytes: nat) {
    && 0 <= k <= |all| && all[k..] == Flatten(chunks)
    && (Wants(c, p, all, k) ==> ParsesFrom(c, p, all, k, chunks, maxBytes))
  }

  lemma GoesOnStep<P>(c: Consumer<P>, p: P, all: seq<byte>, k: nat, chunks: seq<seq<byte>>, maxBytes: nat)
    requires GoesOn(c, p, all, k, chunks, maxBytes) && chunks != []
    ensures GoesOn(c, p, all, k + |chunks[0]|, chunks[1..], maxBytes)
  {
    CutPiece(all, k, chunks);
    if Wants(c, p, all, k) {
      ParsesOn(c, p, all, k, chunks, maxBytes);
    } else {
      DrainAppend(c, p, all[..k], chunks[0]);
    }
  }

  lemma FlattenOneMore(chunks: seq<seq<byte>>, n: nat)
    requires n < |chunks|
    ensures |Flatten(chunks[..n + 1])| == |Flatten(chunks[..n])| + |chunks[n]|
    ensures chunks[n..][0] == chunks[n] && chunks[n..][1..] == chunks[n + 1..]
  {
    assert chunks[..n + 1] == chunks[..n] + [chunks[n]];
    FlattenConcat(chunks[..n], [chunks[n]]);
    assert Flatten([chunks[n]]) == chunks[n] + Flatten([chunks[n]][1..]);
  }

  lemma {:induction false} GoesOnTo<P>(
    c: Consumer<P>, p: P, all: seq<byte>, chunks: seq<seq<byte>>, n: nat, maxBytes: nat)
    requires GoesOn(c, p, all, 0, chunks, maxBytes) && n <= |chunks|
    ensures GoesOn(c, p, all, |Flatten(chunks[..n])|, chunks[n..], maxBytes)
    decreases n
  {
    if n == 0 {
      assert chunks[0..] == chunks;
    } else {
      GoesOnTo(c, p, all, chunks, n - 1, maxBytes);
      FlattenOneMore(chunks, n - 1);
      GoesOnStep(c, p, all, |Flatten(chunks[..n - 1])|, chunks[n - 1..], maxBytes);
    }
  }

  /** A reading that hits no limit fitted at every piece it read while more was wanted. */
  lemma ParsedPieceFits<P>(c: Consumer<P>, p: P, all: seq<byte>, chunks: seq<seq<byte>>, n: nat, maxBytes: nat)
    requires GoesOn(c, p, all, 0, chunks, maxBytes) && n < |chunks|
    requires Wants(c, p, all, |Flatten(chunks[..n])|)
    ensures var k := |Flatten(chunks[..n])|;
            && |Drain(c, p, all[..k]).1| + |chunks[n]| <= SIZE_LIMIT && k + |chunks[n]| <= maxBytes
  {
    GoesOnTo(c, p, all, chunks, n, maxBytes);
    FlattenOneMore(chunks, n);
    ParsesOn(c, p, all, |Flatten(chunks[..n])|, chunks[n..], maxBytes);
  }

  lemma {:induction false} FlattenConcat(a: seq<seq<byte>>, b: seq<seq<byte>>)
    ensures Flatten(a + b) == Flatten(a) + Flatten(b)
    decreases |a|
  {
    if a == [] {
      assert a + b == b;
    } else {
      assert (a + b)[1..] == a[1..] + b;
      FlattenConcat(a[1..], b);
    }
  }

  /** The split into single bytes. */
  function Bytes(bytes: seq<byte>): (chunks: seq<seq<byte>>)
    ensures |chunks| == |bytes| && forall i :: 0 <= i < |bytes| ==> chunks[i] == [bytes[i]]
  {
    seq(|bytes|, i requires 0 <= i < |bytes| => [bytes[i]])
  }

  lemma {:induction false} BytesFlatten(bytes: seq<byte>)
    ensures Flatten(Bytes(bytes)) == bytes
    decreases |bytes|
  {
    if bytes != [] {
      assert Bytes(bytes)[1..] == Bytes(bytes[1..]);
      BytesFlatten(bytes[1..]);
      assert bytes == [bytes[0]] + bytes[1..];
    }
  }

  lemma JoinAround(front: seq<seq<byte>>, piece: seq<byte>, back: seq<seq<byte>>)
    ensures Flatten(front + [piece] + back) == Flatten(front) + piece + Flatten(back)
    ensures (front + [piece] + back)[|front|] == piece && (front + [piece] + back)[..|front|] == front
  {
    FlattenConcat(front + [piece], back);
    FlattenConcat(front, [piece]);
    assert Flatten([piece]) == piece + Flatten([piece][1..]);
  }

  /** A split with the largest piece right after position `at`. */
  lemma SplitAround(all: seq<byte>, at: nat, size: nat) returns (chunks: seq<seq<byte>>)
    requires at < |all| && size > 0
    ensures Flatten(chunks) == all && Pieces(chunks, size) && at < |chunks|
    ensures |Flatten(chunks[..at])| == at && |chunks[at]| == NextPiece(all, at, size)
  {
    var next := at + NextPiece(all, at, size);
    var front, piece, back := Bytes(all[..at]), all[at..next], Bytes(all[next..]);
    chunks := front + [piece] + back;
    BytesFlatten(all[..at]);
    BytesFlatten(all[next..]);
    JoinAround(front, piece, back);
    assert all[..at] + all[at..next] + all[next..] == all;
  }

  /** The exact condition on the bytes: no split into pieces of at most `size` bytes hits a limit, if and
      only if no position is found at which the parser wants more and the next piece does not fit. */
  lemma EverySplitParsesIff<P>(c: Consumer<P>, p: P, all: seq<byte>, size: nat, maxBytes: nat)
    requires size > 0
    ensures EverySplitParses(c, p, all, size, maxBytes) <==> forall k :: FitsAt(c, p, all, k, size, maxBytes)
  {
    assert all[..0] == [] && all[0..] == all && Drain(c, p, []) == (p, []);
    if forall k :: FitsAt(c, p, all, k, size, maxBytes) {
      forall chunks | Flatten(chunks) == all && Pieces(chunks, size)
        ensures Read(c, p, [], 0, chunks, maxBytes).Parsed?
      {
        FittingSplitParses(c, p, all, 0, chunks, size, maxBytes);
      }
    } else {
      var at :| !FitsAt(c, p, all, at, size, maxBytes);
      var chunks := SplitAround(all, at, size);
      if Read(c, p, [], 0, chunks, maxBytes).Parsed? {
        ParsedPieceFits(c, p, all, chunks, at, maxBytes);
        assert false;
      }
    }
  }

  // ---------------------------------------------------------------- exactly when one split hits a limit

  /** The line that is begun but not ended at the end of an input. */
  function Begun(bytes: seq<byte>, line: seq<byte>): seq<byte> {
    if bytes == [] then line
    else if bytes[0] == LF then Begun(bytes[1..], [])
    else Begun(bytes[1..], line + [bytes[0]])
  }

  /** The complete lines and the one begun are the whole input. */
  lemma {:induction false} LinesAndRest(bytes: seq<byte>, line: seq<byte>)
    ensures Terminated(Lines(bytes, line)) + Begun(bytes, line) == line + bytes
    decreases |bytes|
  {
    if bytes == [] {
      assert line + bytes == line;
    } else if bytes[0] == LF {
      LinesAndRest(bytes[1..], []);
      LinesAtLF(line, bytes, Lines(bytes[1..], []), Begun(bytes[1..], []));
    } else {
      LinesAndRest(bytes[1..], line + [bytes[0]]);
      assert (line + [bytes[0]]) + bytes[1..] == line + bytes;
    }
  }

  lemma LinesAtLF(line: seq<byte>, bytes: seq<byte>, lines: seq<seq<byte>>, begun: seq<byte>)
    requires bytes != [] && bytes[0] == LF && Terminated(lines) + begun == [] + bytes[1..]
    ensures Terminated([line] + lines) + begun == line + bytes
  {
    assert ([line] + lines)[1..] == lines;
    assert bytes == [LF] + bytes[1..];
    assert line + [LF] + Terminated(lines) + begun == line + ([LF] + (Terminated(lines) + begun));
  }

  /** No line holds a line feed. */
  lemma {:induction false} LinesHoldNoLF(bytes: seq<byte>, line: seq<byte>)
    requires NoLF(line)
    ensures NoLF(Begun(bytes, line)) && forall i :: 0 <= i < |Lines(bytes, line)| ==> NoLF(Lines(bytes, line)[i])
    decreases |bytes|
  {
    if bytes != [] {
      LinesHoldNoLF(bytes[1..], if bytes[0] == LF then [] else line + [bytes[0]]);
    }
  }

  /** Lines written with a line feed each. */
  function Terminated(lines: seq<seq<byte>>): seq<byte> {
    if lines == [] then [] else lines[0] + [LF] + Terminated(lines[1..])
  }

  ghost predicate LeavesBegun<P>(c: Consumer<P>, p: P, line: seq<byte>, bytes: seq<byte>) {
    c.open(Drain(c, p, line + bytes).0) ==> Drain(c, p, line + bytes).1 == Begun(bytes, line)
  }

  /** While more is wanted, the buffer holds the line begun. */
  lemma {:induction false} DrainLeavesBegun<P>(c: Consumer<P>, p: P, line: seq<byte>, bytes: seq<byte>)
    requires NoLF(line)
    ensures LeavesBegun(c, p, line, bytes)
    decreases |bytes|
  {
    if bytes == [] {
      assert line + bytes == line;
      FirstLFIs(line, |line|);
    } else if bytes[0] == LF {
      DrainLeavesBegun(c, c.step(p, line), [], bytes[1..]);
      LeavesBegunAtLF(c, p, line, bytes);
    } else {
      assert line + bytes == line + [bytes[0]] + bytes[1..];
      DrainLeavesBegun(c, p, line + [bytes[0]], bytes[1..]);
    }
  }

  lemma LeavesBegunAtLF<P>(c: Consumer<P>, p: P, line: seq<byte>, bytes: seq<byte>)
    requires NoLF(line) && bytes != [] && bytes[0] == LF && LeavesBegun(c, c.step(p, line), [], bytes[1..])
    ensures LeavesBegun(c, p, line, bytes)
  {
    var all := line + bytes;
    FirstLFIs(all, |line|);
    assert all[..|line|] == line && all[|line| + 1..] == [] + bytes[1..];
    if c.open(p) {
      DrainStep(c, p, all, |line|);
    }
  }

  /** The parser wants more after the first `m` chunks, and the next one exceeds the total, or the buffer
      together with the line begun. */
  ghost predicate OverflowsAt<P>(c: Consumer<P>, p: P, chunks: seq<seq<byte>>, m: int, maxBytes: nat) {
    && 0 <= m < |chunks| && c.open(ParseWhole(c, p, Flatten(chunks[..m])))
    && (|Flatten(chunks[..m + 1])| > maxBytes || |Begun(Flatten(chunks[..m]), [])| + |chunks[m]| > SIZE_LIMIT)
  }

  ghost predicate FirstOverflow<P>(c: Consumer<P>, p: P, chunks: seq<seq<byte>>, m: int, maxBytes: nat) {
    OverflowsAt(c, p, chunks, m, maxBytes) && forall k :: 0 <= k < m ==> !OverflowsAt(c, p, chunks, k, maxBytes)
  }

  /** The reading as it stands after the first `m` chunks. */
  ghost predicate StandsAt<P>(c: Consumer<P>, p: P, chunks: seq<seq<byte>>, m: int, maxBytes: nat) {
    && 0 <= m <= |chunks|
    && var (q, rest) := Drain(c, p, Flatten(chunks[..m]));
       Read(c, p, [], 0, chunks, maxBytes) == Read(c, q, rest, |Flatten(chunks[..m])|, chunks[m..], maxBytes)
  }

  lemma DrainIsWhole<P>(c: Consumer<P>, p: P, bytes: seq<byte>)
    ensures Drain(c, p, bytes).0 == ParseWhole(c, p, bytes)
    ensures c.open(ParseWhole(c, p, bytes)) ==> Drain(c, p, bytes).1 == Begun(bytes, [])
  {
    assert [] + bytes == bytes;
    DrainIsFold(c, p, [], bytes);
    DrainLeavesBegun(c, p, [], bytes);
  }

  lemma FlattenNext(chunks: seq<seq<byte>>, m: nat)
    requires m < |chunks|
    ensures Flatten(chunks[..m + 1]) == Flatten(chunks[..m]) + chunks[m]
    ensures chunks[m..][0] == chunks[m] && chunks[m..][1..] == chunks[m + 1..]
  {
    assert chunks[..m + 1] == chunks[..m] + [chunks[m]];
    FlattenConcat(chunks[..m], [chunks[m]]);
    assert Flatten([chunks[m]]) == chunks[m] + Flatten([chunks[m]][1..]);
  }

  lemma StandsOneMore<P>(c: Consumer<P>, p: P, chunks: seq<seq<byte>>, m: nat, maxBytes: nat)
    requires StandsAt(c, p, chunks, m, maxBytes) && m < |chunks| && !OverflowsAt(c, p, chunks, m, maxBytes)
    ensures StandsAt(c, p, chunks, m + 1, maxBytes)
  {
    var before := Flatten(chunks[..m]);
    FlattenNext(chunks, m);
    DrainIsWhole(c, p, before);
    DrainAppend(c, p, before, chunks[m]);
  }

  lemma {:induction false} StandsAfter<P>(c: Consumer<P>, p: P, chunks: seq<seq<byte>>, m: nat, maxBytes: nat)
    requires m <= |chunks| && forall k :: 0 <= k < m ==> !OverflowsAt(c, p, chunks, k, maxBytes)
    ensures StandsAt(c, p, chunks, m, maxBytes)
    decreases m
  {
    if m == 0 {
      assert chunks[0..] == chunks && Drain(c, p, []) == (p, []);
    } else {
      StandsAfter(c, p, chunks, m - 1, maxBytes);
      StandsOneMore(c, p, chunks, m - 1, maxBytes);
    }
  }

  lemma {:induction false} LeastOverflow<P>(c: Consumer<P>, p: P, chunks: seq<seq<byte>>, m: nat, maxBytes: nat)
    returns (k: nat)
    requires OverflowsAt(c, p, chunks, m, maxBytes)
    ensures FirstOverflow(c, p, chunks, k, maxBytes)
    decreases m
  {
    k := m;
    if !FirstOverflow(c, p, chunks, m, maxBytes) {
      var i :| 0 <= i < m && OverflowsAt(c, p, chunks, i, maxBytes);
      k := LeastOverflow(c, p, chunks, i, maxBytes);
    }
  }

  lemma OverflowStops<P>(c: Consumer<P>, p: P, chunks: seq<seq<byte>>, m: nat, maxBytes: nat)
    requires FirstOverflow(c, p, chunks, m, maxBytes)
    ensures Read(c, p, [], 0, chunks, maxBytes) == OverLimit(ParseWhole(c, p, Flatten(chunks[..m])))
  {
    StandsAfter(c, p, chunks, m, maxBytes);
    FlattenNext(chunks, m);
    DrainIsWhole(c, p, Flatten(chunks[..m]));
  }

  /** The exact condition on the chunks: a limit is hit if and only if some chunk overflows while more is
      wanted, and then the reading stands where the first such chunk found it. */
  lemma LimitHitIff<P>(c: Consumer<P>, p: P, chunks: seq<seq<byte>>, maxBytes: nat)
    ensures Read(c, p, [], 0, chunks, maxBytes).OverLimit? <==> exists m :: OverflowsAt(c, p, chunks, m, maxBytes)
    ensures forall m :: FirstOverflow(c, p, chunks, m, maxBytes) ==>
              Read(c, p, [], 0, chunks, maxBytes).state == ParseWhole(c, p, Flatten(chunks[..m]))
  {
    if m :| OverflowsAt(c, p, chunks, m, maxBytes) {
      var k := LeastOverflow(c, p, chunks, m, maxBytes);
      OverflowStops(c, p, chunks, k, maxBytes);
    } else {
      StandsAfter(c, p, chunks, |chunks|, maxBytes);
      assert chunks[|chunks|..] == [];
    }
    forall m | FirstOverflow(c, p, chunks, m, maxBytes)
      ensures Read(c, p, [], 0, chunks, maxBytes).state == ParseWhole(c, p, Flatten(chunks[..m]))
    {
      OverflowStops(c, p, chunks, m, maxBytes);
    }
  }

  // ---------------------------------------------------------------- a simple condition

  /** bytes[i..j] holds no line feed. */
  predicate Stretch(bytes: seq<byte>, i: int, j: int) {
    0 <= i <= j <= |bytes| && forall k :: i <= k < j ==> bytes[k] != LF
  }

  ghost predicate ShortStretches(bytes: seq<byte>, longest: nat) {
    forall i, j :: Stretch(bytes, i, j) ==> j - i <= longest
  }

  lemma NoLFIsStretch(all: seq<byte>, from: nat, at: nat)
    requires from <= at <= |all| && FirstLF(all[from..at]) == at - from
    ensures Stretch(all, from, at)
  {
    forall k | from <= k < at ensures all[k] != LF {
      assert all[from..at][k - from] == all[k];
    }
  }

  lemma ShortLinesFit<P>(c: Consumer<P>, p: P, all: seq<byte>, k: int, longest: nat, size: nat, maxBytes: nat)
    requires ShortStretches(all, longest) && longest + size <= SIZE_LIMIT && |all| <= maxBytes
    ensures FitsAt(c, p, all, k, size, maxBytes)
  {
    if 0 <= k < |all| && Wants(c, p, all, k) {
      var rest := Drain(c, p, all[..k]).1;
      DrainRest(c, p, all[..k]);
      assert all[..k][k - |rest|..] == all[k - |rest|..k];
      NoLFIsStretch(all, k - |rest|, k);
    }
  }

  /** If the longest line and the largest chunk fit the buffer together, and the whole fits the total, the
      reader always agrees with the reference. */
  lemma NoLimitHit<P>(c: Consumer<P>, p: P, chunks: seq<seq<byte>>, longest: nat, chunkSize: nat, maxBytes: nat)
    requires ShortStretches(Flatten(chunks), longest) && longest + chunkSize <= SIZE_LIMIT
    requires |Flatten(chunks)| <= maxBytes && forall i :: 0 <= i < |chunks| ==> |chunks[i]| <= chunkSize
    ensures Read(c, p, [], 0, chunks, maxBytes) == Parsed(ParseWhole(c, p, Flatten(chunks)))
  {
    var all := Flatten(chunks);
    assert all[0..] == all && all[..0] == [];
    forall k ensures FitsAt(c, p, all, k, chunkSize, maxBytes) {
      ShortLinesFit(c, p, all, k, longest, chunkSize, maxBytes);
    }
    FittingSplitParses(c, p, all, 0, chunks, chunkSize, maxBytes);
    ReadIsReference(c, p, chunks, maxBytes);
  }

  /** The limits themselves do depend on the chunks: the same bytes in one chunk are refused as
      soon as they exceed the buffer limit. */
  lemma OneLargeChunkIsRefused<P>(c: Consumer<P>, p: P, chunk: seq<byte>, maxBytes: nat)
    requires c.open(p) && |chunk| > SIZE_LIMIT
    ensures Read(c, p, [], 0, [chunk], maxBytes) == OverLimit(p)
  {
    assert [] + chunk == chunk;
  }
}
