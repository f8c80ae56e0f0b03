/** The sliding-window chunker (`chunking`, one file at a time): windows of
    exactly `size` lines starting at 0, `step`, 2*`step`, ... while the start
    passes the loop guard, then one remainder chunk with whatever is left. */
module Chunker {
  import opened Lines

  /** One emitted chunk: the file's path relative to the repositories root,
      the 0-based line it starts at, and the joined text of its lines. */
  datatype Chunk = Chunk(fileName: seq<string>, startLine: nat, text: string)

  /** The chunks emitted from loop counter `start` onward: one window per
      iteration while `start <= len(lines) - 1 - size` (on unbounded
      integers), then the unconditional remainder `lines[start:]`. */
  function Windows(name: seq<string>, lines: seq<string>, size: nat, step: nat, start: nat): (r: seq<Chunk>)
    requires size >= 1 && step >= 1
    decreases |lines| - start
  {
    if start <= |lines| - 1 - size then
      [Chunk(name, start, Join(lines[start..start + size]))] + Windows(name, lines, size, step, start + step)
    else
      [Chunk(name, start, Join(Tail(lines, start)))]
  }

  /** The chunks emitted from `start`: the first starts at `start` and each
      next one `step` lines after its predecessor; every chunk but the last is
      a full window whose start passed the guard; the last is the remainder,
      whose start fails it. */
  lemma {:induction false} WindowAt(name: seq<string>, lines: seq<string>, size: nat, step: nat, start: nat, i: nat)
    requires size >= 1 && step >= 1
    requires i < |Windows(name, lines, size, step, start)|
    ensures var r := Windows(name, lines, size, step, start);
      var s := r[i].startLine;
      && r[i].fileName == name
      && (i == 0 ==> s == start)
      && (i > 0 ==> s == r[i - 1].startLine + step)
      && (i < |r| - 1 ==> s <= |lines| - 1 - size && r[i].text == Join(lines[s..s + size]))
      && (i == |r| - 1 ==> s > |lines| - 1 - size && r[i].text == Join(Tail(lines, s)))
    decreases i
  {
    if i > 0 {
      var r := Windows(name, lines, size, step, start);
      WindowsStep(name, lines, size, step, start);
      assert start <= |lines| - 1 - size;
      var rest := Windows(name, lines, size, step, start + step);
      assert r[i] == rest[i - 1] && r[i - 1] == if i == 1 then r[0] else rest[i - 2];
      assert |r| == |rest| + 1;
      WindowAt(name, lines, size, step, start + step, i - 1);
    }
  }

  /** From line 0, each chunk starts `step` lines after its predecessor. */
  lemma WindowsStarts(name: seq<string>, lines: seq<string>, size: nat, step: nat)
    requires size >= 1 && step >= 1
    ensures var r := Windows(name, lines, size, step, 0);
      && |r| >= 1
      && r[0].startLine == 0
      && (forall i, j :: 0 <= i && j == i + 1 && j < |r| ==> r[j].startLine == r[i].startLine + step)
  {
    var r := Windows(name, lines, size, step, 0);
    forall i, j | 0 <= i && j == i + 1 && j < |r|
      ensures r[j].startLine == r[i].startLine + step
    {
      WindowAt(name, lines, size, step, 0, j);
    }
    WindowAt(name, lines, size, step, 0, 0);
  }

  /** From line 0, every chunk names the file, and every chunk but the last
      is a full window inside the file. */
  lemma WindowsContents(name: seq<string>, lines: seq<string>, size: nat, step: nat)
    requires size >= 1 && step >= 1
    ensures var r := Windows(name, lines, size, step, 0);
      && (forall i :: 0 <= i < |r| ==> r[i].fileName == name)
      && (forall i :: 0 <= i < |r| - 1 ==>
            r[i].startLine + size < |lines| && r[i].text == Join(lines[r[i].startLine..r[i].startLine + size]))
  {
    var r := Windows(name, lines, size, step, 0);
    forall i | 0 <= i < |r|
      ensures r[i].fileName == name
      ensures i < |r| - 1 ==> r[i].startLine + size < |lines| && r[i].text == Join(lines[r[i].startLine..r[i].startLine + size])
    {
      WindowAt(name, lines, size, step, 0, i);
    }
  }

  /** From line 0, the last chunk is the remainder, whose start fails the guard. */
  lemma WindowsRemainder(name: seq<string>, lines: seq<string>, size: nat, step: nat)
    requires size >= 1 && step >= 1
    ensures var r := Windows(name, lines, size, step, 0);
      && |r| >= 1
      && r[|r| - 1].startLine + size >= |lines|
      && r[|r| - 1].text == Join(Tail(lines, r[|r| - 1].startLine))
  {
    WindowsStarts(name, lines, size, step);
    var r := Windows(name, lines, size, step, 0);
    WindowAt(name, lines, size, step, 0, |r| - 1);
  }

  /** The shape of the chunk list of a file of `lines`: the first chunk
      starts at line 0 and each next one `step` lines later; every chunk names
      the file; all but the last are windows of exactly `size` lines lying
      inside the file; the last is the remainder `lines[start:]`, emitted once
      the next window would not fit. */
  ghost predicate Shaped(r: seq<Chunk>, name: seq<string>, lines: seq<string>, size: nat, step: nat)
  {
    && |r| >= 1 && r[0].startLine == 0
    && (forall i :: 0 <= i < |r| ==> r[i].fileName == name)
    && (forall i, j :: 0 <= i && j == i + 1 && j < |r| ==> r[j].startLine == r[i].startLine + step)
    && (forall i :: 0 <= i < |r| - 1 ==>
          r[i].startLine + size < |lines| && r[i].text == Join(lines[r[i].startLine..r[i].startLine + size]))
    && r[|r| - 1].startLine + size >= |lines|
    && r[|r| - 1].text == Join(Tail(lines, r[|r| - 1].startLine))
  }

  /** The chunks emitted from line 0 have the shape of a file's chunk list. */
  lemma WindowsShaped(name: seq<string>, lines: seq<string>, size: nat, step: nat)
    requires size >= 1 && step >= 1
    ensures Shaped(Windows(name, lines, size, step, 0), name, lines, size, step)
  {
    WindowsStarts(name, lines, size, step);
    WindowsContents(name, lines, size, step);
    WindowsRemainder(name, lines, size, step);
  }

  /** All chunks of one successfully read file, in emission order. */
  function ChunkFile(name: seq<string>, lines: seq<string>, size: nat, step: nat): (r: seq<Chunk>)
    requires size >= 1 && step >= 1
    ensures Shaped(r, name, lines, size, step)
  {
    WindowsShaped(name, lines, size, step);
    Windows(name, lines, size, step, 0)
  }

  /** The i-th chunk of a file starts at line `i * step`. */
  lemma {:induction false} StartLineIsMultiple(name: seq<string>, lines: seq<string>, size: nat, step: nat, i: nat)
    requires size >= 1 && step >= 1
    requires i < |ChunkFile(name, lines, size, step)|
    ensures ChunkFile(name, lines, size, step)[i].startLine == i * step
  {
    if i > 0 {
      var r := ChunkFile(name, lines, size, step);
      StartLineIsMultiple(name, lines, size, step, i - 1);
      assert r[i].startLine == r[i - 1].startLine + step;
      assert (i - 1) * step + step == i * step;
    }
  }

  /** The loop of `chunking` with its output list made explicit: `done` holds
      the chunks already appended when the counter reaches `start`. */
  function Emit(done: seq<Chunk>, name: seq<string>, lines: seq<string>, size: nat, step: nat, start: nat): seq<Chunk>
    requires size >= 1 && step >= 1
    decreases |lines| - start
  {
    if start <= |lines| - 1 - size then
      Emit(done + [Chunk(name, start, Join(lines[start..start + size]))], name, lines, size, step, start + step)
    else
      done + [Chunk(name, start, Join(Tail(lines, start)))]
  }

  /** The loop appends to what it already holds exactly the chunks the
      recursive definition emits from the current counter. */
  lemma {:induction false} EmitIsWindows(done: seq<Chunk>, name: seq<string>, lines: seq<string>, size: nat, step: nat,
                                         start: nat)
    requires size >= 1 && step >= 1
    ensures Emit(done, name, lines, size, step, start) == done + Windows(name, lines, size, step, start)
    decreases |lines| - start
  {
    if start <= |lines| - 1 - size {
      var next := done + [Chunk(name, start, Join(lines[start..start + size]))];
      EmitIsWindows(next, name, lines, size, step, start + step);
      LoopStep(done, name, lines, size, step, start);
    } else {
      WindowsStep(name, lines, size, step, start);
    }
  }

  /** The while loop of `chunking` over one file's lines emits exactly what
      the recursive definition emits from line 0, the file's chunk list
      (`ChunkFileIsWindows`). */
  method ChunkLines(name: seq<string>, lines: seq<string>, size: nat, step: nat) returns (corpus: seq<Chunk>)
    requires size >= 1 && step >= 1
    ensures corpus == Windows(name, lines, size, step, 0)
  {
    corpus := [];
    var lineNumber: nat := 0;
    while lineNumber <= |lines| - 1 - size
      invariant Emit(corpus, name, lines, size, step, lineNumber) == Emit([], name, lines, size, step, 0)
      decreases |lines| - lineNumber
    {
      corpus := corpus + [Chunk(name, lineNumber, Join(lines[lineNumber..lineNumber + size]))];
      lineNumber := lineNumber + step;
    }
    corpus := corpus + [Chunk(name, lineNumber, Join(Tail(lines, lineNumber)))];
    EmitIsWindows([], name, lines, size, step, 0);
    assert [] + Windows(name, lines, size, step, 0) == Windows(name, lines, size, step, 0);
  }

  /** One pass of the loop keeps its invariant: appending the window at
      `start` and moving the counter by `step` leaves the chunks still to
      come unchanged. */
  lemma LoopStep(done: seq<Chunk>, name: seq<string>, lines: seq<string>, size: nat, step: nat, start: nat)
    requires size >= 1 && step >= 1
    requires start <= |lines| - 1 - size
    ensures done + Windows(name, lines, size, step, start)
         == (done + [Chunk(name, start, Join(lines[start..start + size]))]) + Windows(name, lines, size, step, start + step)
  {
    var window := Chunk(name, start, Join(lines[start..start + size]));
    WindowsStep(name, lines, size, step, start);
    assert done + ([window] + Windows(name, lines, size, step, start + step))
        == (done + [window]) + Windows(name, lines, size, step, start + step);
  }

  /** One iteration of the loop: a window, then the chunks from the next
      counter; or, once the guard fails, the remainder alone. */
  lemma WindowsStep(name: seq<string>, lines: seq<string>, size: nat, step: nat, start: nat)
    requires size >= 1 && step >= 1
    ensures start <= |lines| - 1 - size ==>
      Windows(name, lines, size, step, start)
        == [Chunk(name, start, Join(lines[start..start + size]))] + Windows(name, lines, size, step, start + step)
    ensures start > |lines| - 1 - size ==>
      Windows(name, lines, size, step, start) == [Chunk(name, start, Join(Tail(lines, start)))]
  {
  }

  /** A file's chunk list is what the loop emits from line 0. */
  lemma ChunkFileIsWindows(name: seq<string>, lines: seq<string>, size: nat, step: nat)
    requires size >= 1 && step >= 1
    ensures ChunkFile(name, lines, size, step) == Windows(name, lines, size, step, 0)
  {
  }

  /** Integer division pinned down by its bracketing multiples. */
  lemma DivBetween(x: int, d: int, q: int)
    requires d >= 1 && q * d <= x < (q + 1) * d
    ensures x / d == q
  {
    var q', m := x / d, x % d;
    assert x == q' * d + m && 0 <= m < d;
    if q' < q {
      MulMonotone(q' + 1, q, d);
    } else if q' > q {
      MulMonotone(q + 1, q', d);
    }
  }

  lemma MulMonotone(a: int, b: int, d: int)
    requires a <= b && d >= 0
    ensures a * d <= b * d
  {
    assert b * d - a * d == (b - a) * d;
  }

  /** The concatenated text of a run of chunks, in order. */
  function Texts(chunks: seq<Chunk>): string
  {
    if |chunks| == 0 then "" else chunks[0].text + Texts(chunks[1..])
  }

  /** The remainder has at most `size` lines, and it is empty exactly when
      the final counter is at or past the end of the file. */
  lemma RemainderBounds(name: seq<string>, lines: seq<string>, size: nat, step: nat)
    requires size >= 1 && step >= 1
    ensures var r := ChunkFile(name, lines, size, step);
      var rest := Tail(lines, r[|r| - 1].startLine);
      && |rest| <= size
      && (|rest| == 0 <==> r[|r| - 1].startLine >= |lines|)
  {
  }

  /** A file of at most `size` lines never enters the loop: it yields the
      single chunk holding the whole file, starting at line 0. */
  lemma ShortFileSingleChunk(name: seq<string>, lines: seq<string>, size: nat, step: nat)
    requires size >= 1 && step >= 1
    requires |lines| <= size
    ensures ChunkFile(name, lines, size, step) == [Chunk(name, 0, Join(lines))]
  {
    var r := ChunkFile(name, lines, size, step);
    assert |r| == 1;
    assert Tail(lines, 0) == lines;
  }

  /** The number of windows is `ceil(max(0, N - size) / step)`; the
      remainder comes on top. */
  lemma ChunkCount(name: seq<string>, lines: seq<string>, size: nat, step: nat)
    requires size >= 1 && step >= 1
    ensures var excess := if |lines| <= size then 0 else |lines| - size;
      |ChunkFile(name, lines, size, step)| == (excess + step - 1) / step + 1
  {
    var r := ChunkFile(name, lines, size, step);
    var k := |r| - 1;
    var excess := if |lines| <= size then 0 else |lines| - size;
    if k == 0 {
      assert excess == 0;
      DivBetween(step - 1, step, 0);
    } else {
      StartLineIsMultiple(name, lines, size, step, k - 1);
      StartLineIsMultiple(name, lines, size, step, k);
      var last, before := r[k].startLine, r[k - 1].startLine;
      assert before + size < |lines| by { assert k - 1 < |r| - 1; }
      assert |lines| <= last + size;
      WindowCountArith(k, step, size, |lines|);
    }
  }

  /** The arithmetic of `ChunkCount`: the last window starts at `(k-1)*step`
      and the remainder at `k*step`. */
  lemma WindowCountArith(k: int, step: int, size: int, n: int)
    requires k >= 1 && step >= 1
    requires (k - 1) * step + size < n <= k * step + size
    ensures (n - size + step - 1) / step == k
  {
    assert k * step == (k - 1) * step + step;
    assert (k + 1) * step == k * step + step;
    DivBetween(n - size + step - 1, step, k);
  }

  /** Start lines strictly increase along the emission order, the remainder
      included: the remainder never repeats the last window's start. */
  lemma {:induction false} StartLinesIncrease(name: seq<string>, lines: seq<string>, size: nat, step: nat, i: nat, j: nat)
    requires size >= 1 && step >= 1
    requires i < j < |ChunkFile(name, lines, size, step)|
    ensures ChunkFile(name, lines, size, step)[i].startLine < ChunkFile(name, lines, size, step)[j].startLine
    decreases j - i
  {
    var r := ChunkFile(name, lines, size, step);
    assert r[j].startLine == r[j - 1].startLine + step;
    if i < j - 1 {
      StartLinesIncrease(name, lines, size, step, i, j - 1);
    }
  }

  /** Texts of the chunks emitted from `start` with `step == size`
      concatenate back to the file's text from `start` on. */
  lemma {:induction false} NonOverlappingFrom(name: seq<string>, lines: seq<string>, size: nat, start: nat)
    requires size >= 1
    ensures Texts(Windows(name, lines, size, size, start)) == Join(Tail(lines, start))
    decreases |lines| - start
  {
    var r := Windows(name, lines, size, size, start);
    if start <= |lines| - 1 - size {
      var rest := Windows(name, lines, size, size, start + size);
      assert r[1..] == rest;
      NonOverlappingFrom(name, lines, size, start + size);
      assert lines[start..] == lines[start..start + size] + lines[start + size..];
      JoinAppend(lines[start..start + size], lines[start + size..]);
    } else {
      assert r[1..] == [];
    }
  }

  /** With `step == size` (the default step) the chunks' texts, concatenated
      in emission order, reproduce the whole file exactly. */
  lemma NonOverlappingReassembles(name: seq<string>, lines: seq<string>, size: nat)
    requires size >= 1
    ensures Texts(ChunkFile(name, lines, size, size)) == Join(lines)
  {
    NonOverlappingFrom(name, lines, size, 0);
    assert Tail(lines, 0) == lines;
  }

  /** Line `j` lies in the `size`-line span starting at some chunk's start
      line (for the remainder that span reaches past the end of the file). */
  predicate Spanned(r: seq<Chunk>, size: nat, j: nat)
  {
    exists i :: 0 <= i < |r| && r[i].startLine <= j < r[i].startLine + size
  }

  /** With `step <= size` every line from `start` on lies in the span of some
      chunk emitted from `start`. */
  lemma {:induction false} CoveredFrom(name: seq<string>, lines: seq<string>, size: nat, step: nat, start: nat, j: nat)
    requires 1 <= step <= size
    requires start <= j < |lines|
    ensures Spanned(Windows(name, lines, size, step, start), size, j)
    decreases |lines| - start
  {
    var r := Windows(name, lines, size, step, start);
    if start <= |lines| - 1 - size && j >= start + size {
      var rest := Windows(name, lines, size, step, start + step);
      CoveredFrom(name, lines, size, step, start + step, j);
      var i :| 0 <= i < |rest| && rest[i].startLine <= j < rest[i].startLine + size;
      assert r == [r[0]] + rest;
      assert r[i + 1] == rest[i];
      assert 0 <= i + 1 < |r| && r[i + 1].startLine <= j < r[i + 1].startLine + size;
    } else {
      assert r[0].startLine <= j < r[0].startLine + size;
    }
  }

  /** Overlapping or adjacent windows (`step <= size`) leave no line of the
      file outside every chunk. */
  lemma EveryLineCovered(name: seq<string>, lines: seq<string>, size: nat, step: nat, j: nat)
    requires 1 <= step <= size
    requires j < |lines|
    ensures Spanned(ChunkFile(name, lines, size, step), size, j)
  {
    CoveredFrom(name, lines, size, step, 0, j);
    assert ChunkFile(name, lines, size, step) == Windows(name, lines, size, step, 0);
  }

  /** Windows further apart than their size (`step > size`) skip content:
      line `size` of a file longer than `size` lies in no chunk. */
  lemma WideStepSkipsLine(name: seq<string>, lines: seq<string>, size: nat, step: nat)
    requires 1 <= size < step
    requires |lines| > size
    ensures !Spanned(ChunkFile(name, lines, size, step), size, size)
  {
    var r := ChunkFile(name, lines, size, step);
    forall i | 0 <= i < |r|
      ensures !(r[i].startLine <= size < r[i].startLine + size)
    {
      if i > 1 {
        StartLinesIncrease(name, lines, size, step, 1, i);
      }
    }
  }

  /** With `step <= size` the remainder of a non-empty file is never empty. */
  lemma RemainderNonEmpty(name: seq<string>, lines: seq<string>, size: nat, step: nat)
    requires 1 <= step <= size
    requires |lines| > 0
    ensures var r := ChunkFile(name, lines, size, step);
      |Tail(lines, r[|r| - 1].startLine)| > 0
  {
    var r := ChunkFile(name, lines, size, step);
    var k := |r| - 1;
    if k > 0 {
      assert r[k].startLine == r[k - 1].startLine + step;
    }
  }

  /** A 25-line file with size 10 and step 10: windows at lines 0 and 10
      (20 fails the guard `20 <= 14`), then the remainder at 20 holding lines
      20 to 24. */
  lemma TwentyFiveLines(name: seq<string>, lines: seq<string>)
    requires |lines| == 25
    ensures var r := ChunkFile(name, lines, 10, 10);
      && |r| == 3
      && r[0] == Chunk(name, 0, Join(lines[0..10]))
      && r[1] == Chunk(name, 10, Join(lines[10..20]))
      && r[2] == Chunk(name, 20, Join(lines[20..]))
  {
    var r := ChunkFile(name, lines, 10, 10);
    ChunkCount(name, lines, 10, 10);
    assert Tail(lines, 20) == lines[20..];
  }
}
