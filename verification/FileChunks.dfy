/**
 The overlapping chunker: a stream whose pieces have arbitrary sizes is re-buffered and cut into
 windows of `chunkSize` bytes, each sharing its first `overlap` bytes with the window before it.
 */
module FileChunks {
  import opened Options

  type Bytes = seq<bv8>

  datatype Chunk = Chunk(data: Bytes, index: nat, start: int, end: int)

  /** The file that a sequence of stream pieces spells. */
  function Flatten(pieces: seq<Bytes>): Bytes {
    if pieces == [] then [] else pieces[0] + Flatten(pieces[1..])
  }

  /** `Buffer.slice(k)`: a negative offset counts from the end, and offsets are clamped. */
  function SliceFrom(buffer: Bytes, k: int): Bytes {
    if k < 0 then buffer[Max(|buffer| + k, 0)..] else buffer[Min(k, |buffer|)..]
  }

  /** What the inner loop leaves in the buffer after it has cut one chunk off. */
  function Advance(buffer: Bytes, chunkSize: int, overlap: int): Bytes {
    if overlap > 0 then SliceFrom(buffer, chunkSize - overlap) else SliceFrom(buffer, chunkSize)
  }

  /** What both ends of a window move by: the bytes, and the reported position. */
  function Step(chunkSize: int, overlap: int): int {
    chunkSize - Max(overlap, 0)
  }

  /** The windows of a whole file `f`, the first of which has this index and position. */
  ghost function Windows(f: Bytes, index: nat, position: int, chunkSize: int, overlap: int): seq<Chunk>
    requires 0 < chunkSize && overlap < chunkSize
    decreases |f|
  {
    if |f| >= chunkSize then
      [Chunk(f[..chunkSize], index, position, position + chunkSize)]
      + Windows(f[Step(chunkSize, overlap)..], index + 1, position + chunkSize - overlap, chunkSize, overlap)
    else if f != [] then [Chunk(f, index, position, position + |f|)]
    else []
  }

  lemma WindowsUnfold(f: Bytes, index: nat, position: int, chunkSize: int, overlap: int)
    requires 0 < chunkSize && overlap < chunkSize
    ensures Windows(f, index, position, chunkSize, overlap)
         == if |f| >= chunkSize then
              [Chunk(f[..chunkSize], index, position, position + chunkSize)]
              + Windows(f[Step(chunkSize, overlap)..], index + 1, position + chunkSize - overlap, chunkSize, overlap)
            else if f != [] then [Chunk(f, index, position, position + |f|)]
            else []
  {
  }

  /** i steps. */
  ghost function Offset(i: nat, step: nat): (at: nat)
    ensures i == 0 ==> at == 0
  {
    if i == 0 then 0 else Offset(i - 1, step) + step
  }

  lemma {:induction false} OffsetIsProduct(i: nat, step: nat)
    ensures Offset(i, step) == i * step
  {
    if i > 0 {
      OffsetIsProduct(i - 1, step);
      assert i * step == (i - 1) * step + step;
    }
  }

  /** Chunk i of a file is the window that starts after i steps; only the last can be short. */
  ghost predicate IsWindow(c: Chunk, f: Bytes, index: nat, position: int, chunkSize: int, overlap: int, i: nat,
                           last: bool)
    requires 0 < chunkSize && overlap < chunkSize
  {
    var at := Offset(i, Step(chunkSize, overlap));
    && at < |f|
    && c.data == f[at..Min(at + chunkSize, |f|)]
    && c.index == index + i
    && c.start == position + Offset(i, chunkSize - overlap)
    && c.end == c.start + |c.data|
    && (last ==> at + |c.data| == |f|)
    && (!last ==> at + chunkSize <= |f|)
  }

  lemma WindowOfRest(c: Chunk, f: Bytes, index: nat, position: int, chunkSize: int, overlap: int, i: nat, last: bool)
    requires 0 < chunkSize <= |f| && overlap < chunkSize
    requires IsWindow(c, f[Step(chunkSize, overlap)..], index + 1, position + chunkSize - overlap, chunkSize, overlap,
                      i, last)
    ensures IsWindow(c, f, index, position, chunkSize, overlap, i + 1, last)
  {
    hide Offset;
    var step := Step(chunkSize, overlap);
    NextOffset(i, step);
    NextOffset(i, chunkSize - overlap);
    var at := Offset(i, step);
    var rest := f[step..];
    SliceOfRest(f, step, at, Min(at + chunkSize, |rest|));
  }

  lemma NextOffset(i: nat, step: nat)
    ensures Offset(i + 1, step) == Offset(i, step) + step
  {
  }

  lemma SliceOfRest(f: Bytes, step: nat, lo: nat, hi: nat)
    requires step <= |f| && lo <= hi <= |f| - step
    ensures f[step..][lo..hi] == f[lo + step..hi + step]
  {
  }

  /** The first window, and the only one of a short file. */
  lemma FirstWindow(f: Bytes, index: nat, position: int, chunkSize: int, overlap: int)
    requires 0 < chunkSize && overlap < chunkSize && f != []
    ensures var ws := Windows(f, index, position, chunkSize, overlap);
            && ws != [] && (|f| < chunkSize ==> |ws| == 1)
            && IsWindow(ws[0], f, index, position, chunkSize, overlap, 0, |ws| == 1)
  {
    assert f[0..|f|] == f;
    assert f[0..Min(chunkSize, |f|)] == f[..Min(chunkSize, |f|)];
  }

  lemma {:induction false} WindowAt(f: Bytes, index: nat, position: int, chunkSize: int, overlap: int, i: nat)
    requires 0 < chunkSize && overlap < chunkSize
    requires i < |Windows(f, index, position, chunkSize, overlap)|
    ensures var ws := Windows(f, index, position, chunkSize, overlap);
            IsWindow(ws[i], f, index, position, chunkSize, overlap, i, i + 1 == |ws|)
    decreases i
  {
    hide Windows, IsWindow;
    WindowsUnfold(f, index, position, chunkSize, overlap);
    if f != [] {
      FirstWindow(f, index, position, chunkSize, overlap);
    }
    if i > 0 {
      var step := Step(chunkSize, overlap);
      var ws := Windows(f, index, position, chunkSize, overlap);
      var tail := Windows(f[step..], index + 1, position + chunkSize - overlap, chunkSize, overlap);
      assert ws[i] == tail[i - 1];
      WindowAt(f[step..], index + 1, position + chunkSize - overlap, chunkSize, overlap, i - 1);
      WindowOfRest(ws[i], f, index, position, chunkSize, overlap, i - 1, i + 1 == |ws|);
    }
  }

  /**
   The caller's view: chunk i is the window of the file after i steps, reported at
   `i * (chunkSize - overlap)`; without a negative overlap that is where it lies.
   */
  lemma ChunkAt(f: Bytes, chunkSize: int, overlap: int, i: nat)
    requires 0 < chunkSize && overlap < chunkSize
    requires i < |Windows(f, 0, 0, chunkSize, overlap)|
    ensures var ws := Windows(f, 0, 0, chunkSize, overlap);
            var at := i * Step(chunkSize, overlap);
            && ws[i].index == i
            && 0 <= at < |f| && ws[i].data == f[at..Min(at + chunkSize, |f|)]
            && ws[i].start == i * (chunkSize - overlap) && ws[i].end == ws[i].start + |ws[i].data|
            && (0 <= overlap ==> ws[i].start == at)
            && (i + 1 < |ws| ==> |ws[i].data| == chunkSize)
            && (i + 1 == |ws| ==> at + |ws[i].data| == |f|)
  {
    WindowAt(f, 0, 0, chunkSize, overlap, i);
    OffsetIsProduct(i, chunkSize - overlap);
    OffsetIsProduct(i, Step(chunkSize, overlap));
  }

  lemma OneWindowExactly(f: Bytes, chunkSize: int, overlap: int)
    requires overlap < 0 < chunkSize
    ensures |Windows(f, 0, 0, chunkSize, overlap)| <= 1 <==> |f| <= chunkSize
  {
    hide Windows;
    WindowsUnfold(f, 0, 0, chunkSize, overlap);
    if |f| >= chunkSize {
      WindowsUnfold(f[chunkSize..], 1, chunkSize - overlap, chunkSize, overlap);
    }
  }

  lemma LargerProduct(n: int, a: int, b: int)
    requires 0 < n && a < b
    ensures n * a < n * b
  {
  }

  /** The reported positions lie inside the file exactly when the overlap is not negative or one chunk holds it. */
  lemma PositionsExactly(f: Bytes, chunkSize: int, overlap: int)
    requires 0 < chunkSize && overlap < chunkSize
    ensures var ws := Windows(f, 0, 0, chunkSize, overlap);
            (forall i :: 0 <= i < |ws| ==> 0 <= ws[i].start <= ws[i].end <= |f|)
            <==> 0 <= overlap || |f| <= chunkSize
  {
    hide Windows;
    var ws := Windows(f, 0, 0, chunkSize, overlap);
    if overlap < 0 {
      OneWindowExactly(f, chunkSize, overlap);
      if |ws| > 1 {
        var n := |ws| - 1;
        ChunkAt(f, chunkSize, overlap, n);
        LargerProduct(n, chunkSize, chunkSize - overlap);
        assert ws[n].end > |f|;
      } else if |ws| == 1 {
        ChunkAt(f, chunkSize, overlap, 0);
      }
    } else {
      forall i: nat | i < |ws|
        ensures 0 <= ws[i].start <= ws[i].end <= |f|
      {
        ChunkAt(f, chunkSize, overlap, i);
      }
    }
  }

  /** The chunks' bytes without the first `overlap` of each. */
  ghost function Tails(chunks: seq<Chunk>, overlap: nat): Bytes {
    if chunks == [] then []
    else chunks[0].data[Min(overlap, |chunks[0].data|)..] + Tails(chunks[1..], overlap)
  }

  /** The first chunk, followed by every later chunk without its first `overlap` bytes. */
  ghost function Stitch(chunks: seq<Chunk>, overlap: nat): Bytes {
    if chunks == [] then [] else chunks[0].data + Tails(chunks[1..], overlap)
  }

  lemma {:induction false} TailsOfWindows(f: Bytes, index: nat, position: int, chunkSize: int, overlap: int)
    requires 0 < chunkSize && overlap < chunkSize && overlap <= |f|
    ensures Tails(Windows(f, index, position, chunkSize, overlap), Max(overlap, 0)) == f[Max(overlap, 0)..]
    decreases |f|
  {
    hide Windows;
    WindowsUnfold(f, index, position, chunkSize, overlap);
    var shared := Max(overlap, 0);
    if |f| >= chunkSize {
      var rest := f[chunkSize - shared..];
      TailsOfWindows(rest, index + 1, position + chunkSize - overlap, chunkSize, overlap);
      assert f[..chunkSize][shared..] + rest[shared..] == f[shared..];
    } else if f != [] {
      assert Windows(f, index, position, chunkSize, overlap)[1..] == [];
      assert Tails([], shared) == [];
    }
  }

  /** Nothing is lost and nothing is invented: stitching the windows gives the file back. */
  lemma Reassembly(f: Bytes, chunkSize: int, overlap: int)
    requires 0 < chunkSize && overlap < chunkSize
    ensures Stitch(Windows(f, 0, 0, chunkSize, overlap), Max(overlap, 0)) == f
  {
    hide Windows;
    WindowsUnfold(f, 0, 0, chunkSize, overlap);
    var ws := Windows(f, 0, 0, chunkSize, overlap);
    var shared := Max(overlap, 0);
    if |f| >= chunkSize {
      var rest := f[chunkSize - shared..];
      assert ws[1..] == Windows(rest, 1, chunkSize - overlap, chunkSize, overlap);
      TailsOfWindows(rest, 1, chunkSize - overlap, chunkSize, overlap);
      assert f == f[..chunkSize] + rest[shared..];
    } else if f != [] {
      assert ws[1..] == [];
    }
  }

  // ---------------------------------------------------------------- the stream

  /** The sizes for which the inner loop ends on every buffer; `ProgressExactly` says that these are all. */
  predicate Ends(chunkSize: int, overlap: int) {
    0 < chunkSize && (overlap < chunkSize || chunkSize < overlap < 2 * chunkSize)
  }

  lemma AdvanceShrinks(buffer: Bytes, chunkSize: int, overlap: int)
    requires Ends(chunkSize, overlap) && chunkSize <= |buffer|
    ensures |Advance(buffer, chunkSize, overlap)| < |buffer|
  {
  }

  /** The chunks still to come from a buffer and the unread pieces, the last one's end not yet clamped. */
  ghost function Cut(buffer: Bytes, pieces: seq<Bytes>, index: nat, position: int, chunkSize: int, overlap: int)
    : seq<Chunk>
    requires Ends(chunkSize, overlap)
    decreases |pieces|, |buffer|
  {
    if |buffer| >= chunkSize then
      AdvanceShrinks(buffer, chunkSize, overlap);
      [Chunk(buffer[..chunkSize], index, position, position + chunkSize)]
      + Cut(Advance(buffer, chunkSize, overlap), pieces, index + 1, position + chunkSize - overlap, chunkSize, overlap)
    else if pieces != [] then
      Cut(buffer + pieces[0], pieces[1..], index, position, chunkSize, overlap)
    else if buffer != [] then [Chunk(buffer, index, position, position + |buffer|)]
    else []
  }

  /** Appending the next piece of the stream to the buffer. */
  lemma Feed(buffer: Bytes, pieces: seq<Bytes>, i: nat, index: nat, position: int, chunkSize: int, overlap: int)
    requires Ends(chunkSize, overlap) && |buffer| < chunkSize && i < |pieces|
    ensures pieces[0..] == pieces
    ensures Cut(buffer, pieces[i..], index, position, chunkSize, overlap)
         == Cut(buffer + pieces[i], pieces[i + 1..], index, position, chunkSize, overlap)
  {
    assert pieces[i..][1..] == pieces[i + 1..];
  }

  lemma CutFirst(buffer: Bytes, pieces: seq<Bytes>, index: nat, position: int, chunkSize: int, overlap: int)
    requires Ends(chunkSize, overlap) && |buffer| >= chunkSize
    ensures |Advance(buffer, chunkSize, overlap)| < |buffer|
    ensures Cut(buffer, pieces, index, position, chunkSize, overlap)
         == [Chunk(buffer[..chunkSize], index, position, position + chunkSize)]
            + Cut(Advance(buffer, chunkSize, overlap), pieces, index + 1, position + chunkSize - overlap, chunkSize,
                  overlap)
  {
    AdvanceShrinks(buffer, chunkSize, overlap);
  }

  /** Cutting the next chunk off the buffer. */
  lemma CutOne(done: seq<Chunk>, buffer: Bytes, pieces: seq<Bytes>, index: nat, position: int, chunkSize: int,
               overlap: int)
    requires Ends(chunkSize, overlap) && |buffer| >= chunkSize
    ensures |Advance(buffer, chunkSize, overlap)| < |buffer|
    ensures done + Cut(buffer, pieces, index, position, chunkSize, overlap)
         == done + [Chunk(buffer[..chunkSize], index, position, position + chunkSize)]
            + Cut(Advance(buffer, chunkSize, overlap), pieces, index + 1, position + chunkSize - overlap, chunkSize,
                  overlap)
  {
    hide Cut;
    CutFirst(buffer, pieces, index, position, chunkSize, overlap);
  }

  /** Cutting the buffer is cutting the buffer and what follows it. */
  lemma CutEither(buffer: Bytes, rest: Bytes, chunkSize: int, overlap: int)
    requires 0 < chunkSize <= |buffer| && overlap < chunkSize
    ensures 0 <= Step(chunkSize, overlap) <= |buffer|
    ensures (buffer + rest)[..chunkSize] == buffer[..chunkSize]
    ensures (buffer + rest)[Step(chunkSize, overlap)..] == Advance(buffer, chunkSize, overlap) + rest
  {
    assert Advance(buffer, chunkSize, overlap) == buffer[Step(chunkSize, overlap)..];
  }

  /** With `overlap` below `chunkSize` the split into pieces does not show. */
  lemma {:induction false} CutIsWindows(buffer: Bytes, pieces: seq<Bytes>, index: nat, position: int, chunkSize: int,
                                        overlap: int)
    requires 0 < chunkSize && overlap < chunkSize
    ensures Cut(buffer, pieces, index, position, chunkSize, overlap)
         == Windows(buffer + Flatten(pieces), index, position, chunkSize, overlap)
    decreases |pieces|, |buffer|
  {
    hide Windows, Cut, Flatten, Advance, Step;
    var all := buffer + Flatten(pieces);
    WindowsUnfold(all, index, position, chunkSize, overlap);
    if |buffer| >= chunkSize {
      var rest := Advance(buffer, chunkSize, overlap);
      CutFirst(buffer, pieces, index, position, chunkSize, overlap);
      CutIsWindows(rest, pieces, index + 1, position + chunkSize - overlap, chunkSize, overlap);
      CutEither(buffer, Flatten(pieces), chunkSize, overlap);
    } else if pieces != [] {
      Feed(buffer, pieces, 0, index, position, chunkSize, overlap);
      CutIsWindows(buffer + pieces[0], pieces[1..], index, position, chunkSize, overlap);
      FlattenCons(buffer, pieces);
    } else {
      CutNothing(buffer, index, position, chunkSize, overlap);
      FlattenNone(buffer);
    }
  }

  lemma FlattenCons(buffer: Bytes, pieces: seq<Bytes>)
    requires pieces != []
    ensures buffer + Flatten(pieces) == buffer + pieces[0] + Flatten(pieces[1..])
  {
  }

  lemma FlattenNone(buffer: Bytes)
    ensures buffer + Flatten([]) == buffer
  {
    assert buffer + [] == buffer;
  }

  lemma CutNothing(buffer: Bytes, index: nat, position: int, chunkSize: int, overlap: int)
    requires Ends(chunkSize, overlap) && |buffer| < chunkSize
    ensures Cut(buffer, [], index, position, chunkSize, overlap)
         == if buffer == [] then [] else [Chunk(buffer, index, position, position + |buffer|)]
  {
  }

  ghost predicate AllFull(chunks: seq<Chunk>, chunkSize: int) {
    forall i :: 0 <= i < |chunks| ==> |chunks[i].data| == chunkSize
  }

  /** The `end` of a short last chunk is clamped to the size that `stat` reported before the file was read. */
  function Clamped(chunks: seq<Chunk>, chunkSize: int, totalSize: int): seq<Chunk> {
    var n := |chunks| - 1;
    if chunks == [] || |chunks[n].data| >= chunkSize then chunks
    else chunks[n := chunks[n].(end := Min(chunks[n].end, totalSize))]
  }

  /** Clamping shows exactly when the reported size is below the end of a short last chunk, and never in the bytes. */
  lemma ClampExactly(f: Bytes, chunkSize: int, overlap: int, totalSize: int)
    requires 0 < chunkSize && overlap < chunkSize
    ensures var ws := Windows(f, 0, 0, chunkSize, overlap);
            && (Clamped(ws, chunkSize, totalSize) == ws
                <==> ws == [] || |ws[|ws| - 1].data| == chunkSize || totalSize >= ws[|ws| - 1].end)
            && (ws != [] && 0 <= overlap ==> ws[|ws| - 1].end == |f|)
            && Stitch(Clamped(ws, chunkSize, totalSize), Max(overlap, 0)) == f
  {
    hide Windows, Stitch;
    var ws := Windows(f, 0, 0, chunkSize, overlap);
    Reassembly(f, chunkSize, overlap);
    SameData(ws, Clamped(ws, chunkSize, totalSize), Max(overlap, 0));
    if ws != [] {
      ChunkAt(f, chunkSize, overlap, |ws| - 1);
      ClampLast(ws, chunkSize, totalSize);
    }
  }

  lemma ClampLast(chunks: seq<Chunk>, chunkSize: int, totalSize: int)
    requires chunks != []
    ensures var last := chunks[|chunks| - 1];
            Clamped(chunks, chunkSize, totalSize) == chunks <==> last.end <= totalSize || |last.data| >= chunkSize
  {
    var n := |chunks| - 1;
    if |chunks[n].data| < chunkSize {
      assert Clamped(chunks, chunkSize, totalSize)[n].end == Min(chunks[n].end, totalSize);
    }
  }

  lemma {:induction false} SameTails(a: seq<Chunk>, b: seq<Chunk>, overlap: nat)
    requires |a| == |b| && forall i :: 0 <= i < |a| ==> a[i].data == b[i].data
    ensures Tails(a, overlap) == Tails(b, overlap)
    decreases |a|
  {
    if a != [] {
      SameTails(a[1..], b[1..], overlap);
    }
  }

  lemma SameData(a: seq<Chunk>, b: seq<Chunk>, overlap: nat)
    requires |a| == |b| && forall i :: 0 <= i < |a| ==> a[i].data == b[i].data
    ensures Stitch(a, overlap) == Stitch(b, overlap)
  {
    if a != [] {
      SameTails(a[1..], b[1..], overlap);
    }
  }

  lemma NoneFull(chunkSize: int)
    ensures AllFull([], chunkSize)
  {
  }

  lemma FullSnoc(chunks: seq<Chunk>, next: Chunk, chunkSize: int)
    requires AllFull(chunks, chunkSize) && |next.data| == chunkSize
    ensures AllFull(chunks + [next], chunkSize)
  {
  }

  /** The remainder that is left when the stream has ended is the one chunk to clamp. */
  lemma ClampRemainder(done: seq<Chunk>, buffer: Bytes, index: nat, position: int, chunkSize: int, overlap: int,
                       totalSize: int)
    requires Ends(chunkSize, overlap) && |buffer| < chunkSize && AllFull(done, chunkSize)
    ensures Clamped(done + Cut(buffer, [], index, position, chunkSize, overlap), chunkSize, totalSize)
         == if buffer == [] then done
            else done + [Chunk(buffer, index, position, Min(position + |buffer|, totalSize))]
  {
  }

  method ReadFileInChunks(pieces: seq<Bytes>, totalSize: int, chunkSize: int, overlap: int)
    returns (chunks: seq<Chunk>)
    requires Ends(chunkSize, overlap)
    ensures chunks == Clamped(Cut([], pieces, 0, 0, chunkSize, overlap), chunkSize, totalSize)
    ensures overlap < chunkSize ==>
              && chunks == Clamped(Windows(Flatten(pieces), 0, 0, chunkSize, overlap), chunkSize, totalSize)
              && Stitch(chunks, Max(overlap, 0)) == Flatten(pieces)
  {
    hide Cut, Windows, Stitch, Clamped, Flatten, Advance, AllFull;
    NoneFull(chunkSize);
    chunks := [];
    var index: nat := 0;
    var currentChunk: Bytes := [];
    var position := 0;
    ghost var all := Cut([], pieces, 0, 0, chunkSize, overlap);
    assert pieces[0..] == pieces;
    for i := 0 to |pieces|
      invariant |currentChunk| < chunkSize && AllFull(chunks, chunkSize)
      invariant chunks + Cut(currentChunk, pieces[i..], index, position, chunkSize, overlap) == all
    {
      Feed(currentChunk, pieces, i, index, position, chunkSize, overlap);
      currentChunk := currentChunk + pieces[i];
      while |currentChunk| >= chunkSize
        invariant AllFull(chunks, chunkSize)
        invariant chunks + Cut(currentChunk, pieces[i + 1..], index, position, chunkSize, overlap) == all
        decreases |currentChunk|
      {
        CutOne(chunks, currentChunk, pieces[i + 1..], index, position, chunkSize, overlap);
        FullSnoc(chunks, Chunk(currentChunk[..chunkSize], index, position, position + chunkSize), chunkSize);
        var nextChunk := currentChunk[..chunkSize];
        chunks := chunks + [Chunk(nextChunk, index, position, position + |nextChunk|)];
        position := position + |nextChunk| - overlap;
        index := index + 1;
        currentChunk := Advance(currentChunk, chunkSize, overlap);
      }
    }
    assert pieces[|pieces|..] == [];
    ClampRemainder(chunks, currentChunk, index, position, chunkSize, overlap, totalSize);
    if |currentChunk| > 0 {
      chunks := chunks + [Chunk(currentChunk, index, position, Min(position + |currentChunk|, totalSize))];
    }
    if overlap < chunkSize {
      WholeFile(pieces, chunkSize, overlap, totalSize);
    }
  }

  lemma WholeFile(pieces: seq<Bytes>, chunkSize: int, overlap: int, totalSize: int)
    requires 0 < chunkSize && overlap < chunkSize
    ensures var ws := Windows(Flatten(pieces), 0, 0, chunkSize, overlap);
            && Cut([], pieces, 0, 0, chunkSize, overlap) == ws
            && Stitch(Clamped(ws, chunkSize, totalSize), Max(overlap, 0)) == Flatten(pieces)
  {
    CutIsWindows([], pieces, 0, 0, chunkSize, overlap);
    assert [] + Flatten(pieces) == Flatten(pieces);
    ClampExactly(Flatten(pieces), chunkSize, overlap, totalSize);
  }

  /** What a stream with `highWaterMark: chunkSize` can deliver of a file. */
  ghost predicate Delivers(pieces: seq<Bytes>, f: Bytes, chunkSize: int) {
    Flatten(pieces) == f && forall i :: 0 <= i < |pieces| ==> |pieces[i]| <= chunkSize
  }

  ghost predicate SplitIsInvisible(chunkSize: int, overlap: int)
    requires Ends(chunkSize, overlap)
  {
    forall f, p, q :: Delivers(p, f, chunkSize) && Delivers(q, f, chunkSize) ==>
      Cut([], p, 0, 0, chunkSize, overlap) == Cut([], q, 0, 0, chunkSize, overlap)
  }

  /**
   Where the loop ends at all, the chunks depend on the file alone exactly when `overlap` is below
   `chunkSize`; with more, two deliveries of one file give different chunks.
   */
  lemma SplitInvisibleExactly(chunkSize: int, overlap: int)
    requires Ends(chunkSize, overlap)
    ensures SplitIsInvisible(chunkSize, overlap) <==> overlap < chunkSize
  {
    if overlap < chunkSize {
      forall f, p, q | Delivers(p, f, chunkSize) && Delivers(q, f, chunkSize)
        ensures Cut([], p, 0, 0, chunkSize, overlap) == Cut([], q, 0, 0, chunkSize, overlap)
      {
        CutIsWindows([], p, 0, 0, chunkSize, overlap);
        CutIsWindows([], q, 0, 0, chunkSize, overlap);
      }
    } else {
      var full: Bytes := seq(chunkSize, _ => 0);
      var one: Bytes := [0];
      FlattenTwo(full, one);
      FlattenTwo(one, full);
      assert full + one == one + full;
      assert Delivers([full, one], full + one, chunkSize) && Delivers([one, full], full + one, chunkSize);
      LongFirst(full, one, chunkSize, overlap);
      ShortFirst(one, full, chunkSize, overlap);
    }
  }

  lemma FlattenTwo(a: Bytes, b: Bytes)
    ensures Flatten([a, b]) == a + b
  {
    assert [a, b][1..] == [b];
    assert Flatten([b]) == b + Flatten([]);
  }

  lemma LongFirst(full: Bytes, one: Bytes, chunkSize: int, overlap: int)
    requires chunkSize < overlap < 2 * chunkSize && |full| == chunkSize && |one| == 1
    ensures var chunks := Cut([], [full, one], 0, 0, chunkSize, overlap);
            |chunks| > 2 || (|chunks| == 2 && |chunks[1].data| == overlap - chunkSize + 1)
  {
    var kept := Advance(full, chunkSize, overlap);
    assert [] + full == full && [full, one][1..] == [one] && [one][1..] == [];
    assert Cut([], [full, one], 0, 0, chunkSize, overlap) == Cut(full, [one], 0, 0, chunkSize, overlap);
    var next := chunkSize - overlap;
    assert Cut(kept, [one], 1, next, chunkSize, overlap) == Cut(kept + one, [], 1, next, chunkSize, overlap);
    if |kept + one| >= chunkSize {
      assert Cut(Advance(kept + one, chunkSize, overlap), [], 2, 2 * next, chunkSize, overlap) != [];
    }
  }

  lemma ShortFirst(one: Bytes, full: Bytes, chunkSize: int, overlap: int)
    requires chunkSize < overlap < 2 * chunkSize && |full| == chunkSize && |one| == 1
    ensures var chunks := Cut([], [one, full], 0, 0, chunkSize, overlap);
            |chunks| == 2 && |chunks[1].data| == overlap - chunkSize
  {
    assert [] + one == one && [one, full][1..] == [full] && [full][1..] == [];
    assert Cut([], [one, full], 0, 0, chunkSize, overlap) == Cut(one + full, [], 0, 0, chunkSize, overlap) by {
      assert Cut([], [one, full], 0, 0, chunkSize, overlap) == Cut(one, [full], 0, 0, chunkSize, overlap);
    }
    var kept := Advance(one + full, chunkSize, overlap);
    assert Cut(kept, [], 1, chunkSize - overlap, chunkSize, overlap)
        == [Chunk(kept, 1, chunkSize - overlap, chunkSize - overlap + |kept|)];
  }

  /** Neighbouring chunks agree on the bytes they share. */
  lemma NeighboursOverlap(f: Bytes, chunkSize: int, overlap: int, i: nat)
    requires 0 < chunkSize && overlap < chunkSize
    requires i + 1 < |Windows(f, 0, 0, chunkSize, overlap)|
    ensures var ws := Windows(f, 0, 0, chunkSize, overlap);
            var shared := Max(overlap, 0);
            && |ws[i].data| == chunkSize
            && shared <= |ws[i + 1].data|
            && ws[i].data[chunkSize - shared..] == ws[i + 1].data[..shared]
            && ws[i + 1].start == ws[i].end - overlap
  {
    hide Windows;
    var ws := Windows(f, 0, 0, chunkSize, overlap);
    WindowAt(f, 0, 0, chunkSize, overlap, i);
    WindowAt(f, 0, 0, chunkSize, overlap, i + 1);
    var step := Step(chunkSize, overlap);
    var at, next := Offset(i, step), Offset(i + 1, step);
    assert next == at + step;
    assert ws[i].data[step..] == f[next..at + chunkSize];
    assert ws[i + 1].data[..chunkSize - step] == f[next..at + chunkSize];
  }

  /** The last chunk carries no byte that an earlier chunk did not: it is the overlap and nothing more. */
  ghost predicate LastChunkIsStale(f: Bytes, chunkSize: int, overlap: int)
    requires 0 < chunkSize && overlap < chunkSize
  {
    var ws := Windows(f, 0, 0, chunkSize, overlap);
    |ws| > 1 && |ws[|ws| - 1].data| == overlap
  }

  ghost predicate EndsOnWindow(size: nat, chunkSize: nat, step: nat) {
    exists k: nat :: size == chunkSize + Offset(k, step)
  }

  /**
   A trailing stale chunk is produced exactly when, with an overlap, the file ends where some full
   window does (`Offset(k, step)` is `k * step`).
   */
  lemma StaleChunkExactly(f: Bytes, chunkSize: int, overlap: int)
    requires 0 < chunkSize && overlap < chunkSize
    ensures LastChunkIsStale(f, chunkSize, overlap)
        <==> 0 < overlap && EndsOnWindow(|f|, chunkSize, Step(chunkSize, overlap))
  {
    var ws := Windows(f, 0, 0, chunkSize, overlap);
    var step := Step(chunkSize, overlap);
    if LastChunkIsStale(f, chunkSize, overlap) {
      var n := |ws| - 1;
      WindowAt(f, 0, 0, chunkSize, overlap, n);
      WindowAt(f, 0, 0, chunkSize, overlap, n - 1);
      assert |f| == chunkSize + Offset(n - 1, step);
    }
    if 0 < overlap && EndsOnWindow(|f|, chunkSize, step) {
      var k: nat :| |f| == chunkSize + Offset(k, step);
      BoundaryLeavesOverlap(f, 0, 0, chunkSize, overlap, k);
    }
  }

  lemma {:induction false} BoundaryLeavesOverlap(f: Bytes, index: nat, position: int, chunkSize: int, overlap: int,
                                                 k: nat)
    requires 0 < overlap < chunkSize
    requires |f| == Offset(k, chunkSize - overlap) + chunkSize
    ensures var ws := Windows(f, index, position, chunkSize, overlap);
            |ws| > 1 && |ws[|ws| - 1].data| == overlap
    decreases k
  {
    var step := chunkSize - overlap;
    var rest := f[step..];
    var tail := Windows(rest, index + 1, position + step, chunkSize, overlap);
    assert Windows(f, index, position, chunkSize, overlap)[1..] == tail;
    if k > 0 {
      BoundaryLeavesOverlap(rest, index + 1, position + step, chunkSize, overlap, k - 1);
    } else {
      assert tail == [Chunk(rest, index + 1, position + step, position + step + |rest|)];
    }
  }

  /**
   The inner loop runs while the buffer holds `chunkSize` bytes.  It shortens every such buffer, and
   so ends, exactly when `overlap` is below `chunkSize` or strictly between it and its double;
   otherwise some buffer is left unchanged and the loop spins on it.
   */
  lemma ProgressExactly(chunkSize: int, overlap: int)
    requires 0 < chunkSize
    ensures (forall b: Bytes :: |b| >= chunkSize ==> |Advance(b, chunkSize, overlap)| < |b|)
        <==> overlap < chunkSize || chunkSize < overlap < 2 * chunkSize
    ensures !(overlap < chunkSize || chunkSize < overlap < 2 * chunkSize)
        ==> exists b: Bytes :: |b| >= chunkSize && Advance(b, chunkSize, overlap) == b
  {
    if !(overlap < chunkSize || chunkSize < overlap < 2 * chunkSize) {
      var b: Bytes := seq(chunkSize, _ => 0);
      assert |b| >= chunkSize && Advance(b, chunkSize, overlap) == b;
    }
  }

  /** What is kept of a buffer: all but the step, or, with an overlap above `chunkSize`, its very end. */
  lemma AdvanceExactly(b: Bytes, chunkSize: int, overlap: int)
    requires Ends(chunkSize, overlap) && chunkSize <= |b|
    ensures overlap <= 0 ==> Advance(b, chunkSize, overlap) == b[chunkSize..]
    ensures 0 <= overlap < chunkSize ==> Advance(b, chunkSize, overlap) == b[chunkSize - overlap..]
    ensures chunkSize < overlap ==> Advance(b, chunkSize, overlap) == b[|b| - (overlap - chunkSize)..]
  {
  }

  /** Wherever the loop ends, chunk i has index i, is reported at i steps, and is full unless it is the last. */
  lemma {:induction false} CutPositions(buffer: Bytes, pieces: seq<Bytes>, index: nat, position: int, chunkSize: int,
                                        overlap: int, i: nat)
    requires Ends(chunkSize, overlap) && i < |Cut(buffer, pieces, index, position, chunkSize, overlap)|
    ensures var chunks := Cut(buffer, pieces, index, position, chunkSize, overlap);
            && chunks[i].index == index + i
            && chunks[i].start == position + i * (chunkSize - overlap)
            && chunks[i].end == chunks[i].start + |chunks[i].data|
            && 0 < |chunks[i].data| <= chunkSize && (i + 1 < |chunks| ==> |chunks[i].data| == chunkSize)
    decreases |pieces|, |buffer|
  {
    hide Cut, Advance;
    if |buffer| >= chunkSize {
      CutFirst(buffer, pieces, index, position, chunkSize, overlap);
      if i > 0 {
        CutPositions(Advance(buffer, chunkSize, overlap), pieces, index + 1, position + chunkSize - overlap, chunkSize,
                     overlap, i - 1);
        OneStepMore(i, chunkSize - overlap);
      }
    } else if pieces != [] {
      Feed(buffer, pieces, 0, index, position, chunkSize, overlap);
      CutPositions(buffer + pieces[0], pieces[1..], index, position, chunkSize, overlap, i);
    } else {
      CutNothing(buffer, index, position, chunkSize, overlap);
    }
  }

  lemma OneStepMore(i: nat, step: int)
    requires i > 0
    ensures step + (i - 1) * step == i * step
  {
  }

  /** The buffer shrinks by as much as the position moves, every time, exactly when `0 <= overlap < chunkSize`. */
  lemma StepExactly(chunkSize: int, overlap: int)
    requires 0 < chunkSize
    ensures (forall b: Bytes :: |b| >= chunkSize ==>
              |b| - |Advance(b, chunkSize, overlap)| == chunkSize - overlap > 0)
        <==> 0 <= overlap < chunkSize
  {
    var b: Bytes := seq(chunkSize, _ => 0);
    assert |b| >= chunkSize && |Advance(b, chunkSize, overlap)| <= |b|;
  }
}
