/** Replacing the lines between two markers of a document. */
module MarkerBlocks {
  import opened Options
  import opened Text

  datatype ReplaceError = MissingStart | MissingEnd

  predicate OccursAt(text: string, pattern: string, i: nat) {
    i + |pattern| <= |text| && text[i..i + |pattern|] == pattern
  }

  predicate Contains(text: string, pattern: string) {
    exists i: nat :: i <= |text| && OccursAt(text, pattern, i)
  }

  /** `text.indexOf(pattern, from)`, for an offset within the text; `None` is -1. */
  function IndexOf(text: string, pattern: string, from: nat): (r: Option<nat>)
    requires from <= |text|
    ensures r.Some? ==> from <= r.value && OccursAt(text, pattern, r.value)
    ensures r.Some? ==> forall k: nat :: from <= k < r.value ==> !OccursAt(text, pattern, k)
    ensures r.None? ==> forall k: nat :: from <= k ==> !OccursAt(text, pattern, k)
    decreases |text| - from
  {
    if OccursAt(text, pattern, from) then Some(from)
    else if from == |text| then None
    else IndexOf(text, pattern, from + 1)
  }

  /** Where the line of position `at` starts: after the last newline at or before it. */
  function LineStart(text: string, at: nat): (i: nat)
    requires at <= |text|
    ensures i <= at + 1 && i <= |text|
    ensures i > 0 ==> text[i - 1] == '\n'
    ensures forall k :: i <= k < |text| && k <= at ==> text[k] != '\n'
  {
    if at < |text| && text[at] == '\n' then at + 1
    else if at == 0 then 0
    else LineStart(text, at - 1)
  }

  /** Where the line of position `at` ends, its newline included. */
  function LineEnd(text: string, at: nat): (i: nat)
    requires at <= |text|
    ensures at <= i <= |text|
    ensures i < |text| ==> i > at && text[i - 1] == '\n'
    ensures forall k :: at <= k < i - 1 ==> text[k] != '\n'
    decreases |text| - at
  {
    if at == |text| then at
    else if text[at] == '\n' then at + 1
    else LineEnd(text, at + 1)
  }

  /** `text.slice(from, to)` for offsets within the text. */
  function SliceText(text: string, from: nat, to: nat): string
    requires from <= |text| && to <= |text|
  {
    if from <= to then text[from..to] else ""
  }

  /** The replacement lines, each with its indent and a newline. */
  function IndentLines(indent: string, lines: seq<string>): string {
    if lines == [] then "" else indent + lines[0] + "\n" + IndentLines(indent, lines[1..])
  }

  /** The block from the start marker on, without its last line. */
  function Head(startMarker: string, indent: string, lines: seq<string>): string {
    startMarker + "\n" + IndentLines(indent, lines)
  }

  function ReplaceBlockLines(text: string, startMarker: string, endMarker: string, lines: seq<string>)
    : Result<string, ReplaceError>
  {
    match IndexOf(text, startMarker, 0)
    case None => Err(MissingStart)
    case Some(startIndex) =>
      match IndexOf(text, endMarker, startIndex)
      case None => Err(MissingEnd)
      case Some(endIndex) =>
        var lineStart, lineEnd := LineStart(text, startIndex), LineEnd(text, endIndex);
        var indent := SliceText(text, lineStart, startIndex);
        var before, after := text[..lineStart], text[lineEnd..];
        var replacement := indent + Head(startMarker, indent, lines) + indent + endMarker;
        Ok(if after == "" then before + replacement else before + replacement + "\n" + after)
  }

  // ---------------------------------------------------------------- laws

  predicate OneLine(s: string) {
    '\n' !in s
  }

  /** The markers are non-empty and lie within one line each. */
  predicate Markers(startMarker: string, endMarker: string) {
    startMarker != "" && endMarker != "" && OneLine(startMarker) && OneLine(endMarker)
  }

  /**
   What a replacement keeps of a document: the text up to the start marker, the indent of that marker
   (the last part of the former), and the text after the line of the end marker.
   */
  datatype Parts = Parts(front: string, indent: string, after: string)

  function Find(text: string, startMarker: string, endMarker: string): Result<Parts, ReplaceError> {
    match IndexOf(text, startMarker, 0)
    case None => Err(MissingStart)
    case Some(startIndex) =>
      match IndexOf(text, endMarker, startIndex)
      case None => Err(MissingEnd)
      case Some(endIndex) =>
        Ok(Parts(text[..startIndex], SliceText(text, LineStart(text, startIndex), startIndex),
                 text[LineEnd(text, endIndex)..]))
  }

  /** What follows the head of the new block: its last line and the untouched rest of the document. */
  function Tail(indent: string, endMarker: string, after: string): string {
    indent + endMarker + if after == "" then "" else "\n" + after
  }

  /** The document with these parts and this block. */
  function Assemble(p: Parts, startMarker: string, endMarker: string, lines: seq<string>): string {
    p.front + Head(startMarker, p.indent, lines) + Tail(p.indent, endMarker, p.after)
  }

  /** A one-line pattern does not occur across a newline. */
  lemma NewlineStops(text: string, pattern: string, k: nat, m: nat)
    requires OneLine(pattern)
    ensures k <= m < k + |pattern| && m < |text| && text[m] == '\n' ==> !OccursAt(text, pattern, k)
  {
    if k <= m < k + |pattern| <= |text| && text[m] == '\n' {
      assert text[k..k + |pattern|][m - k] == '\n';
    }
  }

  lemma LineOfMarker(text: string, pattern: string, i: nat)
    requires OccursAt(text, pattern, i) && pattern != "" && OneLine(pattern)
    ensures LineStart(text, i) <= i
  {
    NewlineStops(text, pattern, i, i);
  }

  /**
   The shape of the result: everything up to the start marker is kept to the letter, indentation
   included, and everything after the line of the end marker is kept; a missing marker is reported.
   */
  lemma ResultShape(text: string, startMarker: string, endMarker: string, lines: seq<string>)
    requires Markers(startMarker, endMarker)
    ensures ReplaceBlockLines(text, startMarker, endMarker, lines)
         == match Find(text, startMarker, endMarker)
            case Err(e) => Err(e)
            case Ok(p) => Ok(Assemble(p, startMarker, endMarker, lines))
  {
    hide Head, IndexOf, LineStart, LineEnd, OccursAt;
    if Find(text, startMarker, endMarker).Ok? {
      var i := IndexOf(text, startMarker, 0).value;
      LineOfMarker(text, startMarker, i);
      var p := Find(text, startMarker, endMarker).value;
      assert p.front == text[..LineStart(text, i)] + p.indent;
      Regroup(text[..LineStart(text, i)], p.indent, Head(startMarker, p.indent, lines), endMarker, p.after);
    }
  }

  lemma Regroup(before: string, indent: string, head: string, endMarker: string, after: string)
    ensures before + indent + head + Tail(indent, endMarker, after)
         == if after == "" then before + (indent + head + indent + endMarker)
            else before + (indent + head + indent + endMarker) + "\n" + after
  {
  }

  /** Position i is the first at or after `from` where the pattern occurs. */
  ghost predicate FirstAt(text: string, pattern: string, from: nat, i: nat) {
    from <= i && OccursAt(text, pattern, i) && forall k: nat :: from <= k < i ==> !OccursAt(text, pattern, k)
  }

  /** The line of position i starts at a. */
  predicate StartsLine(text: string, a: nat, i: nat) {
    a <= i <= |text| && (a == 0 || text[a - 1] == '\n') && forall k :: a <= k < i ==> text[k] != '\n'
  }

  /** The line of position j ends before b, its newline included. */
  predicate StopsLine(text: string, j: nat, b: nat) {
    && j <= b <= |text|
    && if b > j && text[b - 1] == '\n' then forall k :: j <= k < b - 1 ==> text[k] != '\n'
       else b == |text| && forall k :: j <= k < b ==> text[k] != '\n'
  }

  /**
   What the parts are: the text before the first start marker, that marker's indent, and the text after the
   line of the first end marker from there on; and which marker is missing when there are no parts.
   */
  lemma PartsExactly(text: string, startMarker: string, endMarker: string, i: nat, j: nat, a: nat, b: nat)
    requires Markers(startMarker, endMarker)
    ensures FirstAt(text, startMarker, 0, i) && FirstAt(text, endMarker, i, j) && StartsLine(text, a, i)
            && StopsLine(text, j, b) ==>
              Find(text, startMarker, endMarker) == Ok(Parts(text[..i], text[a..i], text[b..]))
    ensures Find(text, startMarker, endMarker) == Err(MissingStart)
        <==> forall k: nat :: !OccursAt(text, startMarker, k)
    ensures FirstAt(text, startMarker, 0, i) ==>
              (Find(text, startMarker, endMarker) == Err(MissingEnd)
               <==> forall k: nat :: i <= k ==> !OccursAt(text, endMarker, k))
  {
    hide IndexOf, LineStart, LineEnd, OccursAt;
    if FirstAt(text, startMarker, 0, i) {
      OccursFits(text, startMarker, i);
      if FirstAt(text, endMarker, i, j) {
        OccursFits(text, endMarker, j);
        if StartsLine(text, a, i) && StopsLine(text, j, b) {
          LineOfMarker(text, startMarker, i);
          NewlineStops(text, startMarker, i, i);
          SameStart(text, a, LineStart(text, i), i);
          SameEnd(text, j, b, LineEnd(text, j));
        }
      }
    }
  }

  lemma SameStart(text: string, a: nat, c: nat, i: nat)
    requires StartsLine(text, a, i) && StartsLine(text, c, i)
    ensures a == c
  {
  }

  lemma SameEnd(text: string, j: nat, b: nat, c: nat)
    requires StopsLine(text, j, b) && StopsLine(text, j, c)
    ensures b == c
  {
  }

  /** Where line l of the new block begins: after the lines before it, each with its indent and newline. */
  ghost function LineOffset(indent: string, lines: seq<string>, l: nat): nat
    requires l <= |lines|
  {
    if l == 0 then 0 else LineOffset(indent, lines, l - 1) + |indent| + |lines[l - 1]| + 1
  }

  lemma {:induction false} OffsetOfRest(indent: string, lines: seq<string>, l: nat)
    requires 0 < l <= |lines|
    ensures LineOffset(indent, lines, l) == |indent| + |lines[0]| + 1 + LineOffset(indent, lines[1..], l - 1)
    decreases l
  {
    if l > 1 {
      OffsetOfRest(indent, lines, l - 1);
    }
  }

  lemma {:induction false} LineInPlace(indent: string, lines: seq<string>, l: nat)
    requires l < |lines|
    ensures LineOffset(indent, lines, l) + |indent| + |lines[l]| + 1
         == LineOffset(indent, lines, l + 1) <= |IndentLines(indent, lines)|
    ensures IndentLines(indent, lines)[LineOffset(indent, lines, l)..LineOffset(indent, lines, l + 1)]
         == indent + lines[l] + "\n"
    decreases l
  {
    var first, rest := indent + lines[0] + "\n", IndentLines(indent, lines[1..]);
    assert IndentLines(indent, lines) == first + rest;
    if l > 0 {
      LineInPlace(indent, lines[1..], l - 1);
      OffsetOfRest(indent, lines, l);
      OffsetOfRest(indent, lines, l + 1);
      var from, to := LineOffset(indent, lines[1..], l - 1), LineOffset(indent, lines[1..], l);
      assert (first + rest)[|first| + from..|first| + to] == rest[from..to];
    } else {
      assert LineOffset(indent, lines, 1) == |first|;
      assert (first + rest)[0..|first|] == first;
    }
  }

  lemma {:induction false} LinesLength(indent: string, lines: seq<string>)
    ensures |IndentLines(indent, lines)| == LineOffset(indent, lines, |lines|)
    decreases |lines|
  {
    if lines != [] {
      LinesLength(indent, lines[1..]);
      OffsetOfRest(indent, lines, |lines|);
    }
  }

  /**
   The new document, line by line: the old text up to the start marker, the marker and a newline, every
   replacement line in its place with the indent before it and a newline after it, then the end marker with
   its indent, and then the rest.
   */
  lemma BlockLineByLine(text: string, startMarker: string, endMarker: string, lines: seq<string>, l: nat)
    requires Markers(startMarker, endMarker) && Find(text, startMarker, endMarker).Ok? && l <= |lines|
    ensures var p := Find(text, startMarker, endMarker).value;
            var r := ReplaceBlockLines(text, startMarker, endMarker, lines);
            var top := |p.front| + |startMarker| + 1;
            var from := top + LineOffset(p.indent, lines, l);
            && r.Ok?
            && top <= from <= |r.value| && r.value[..top] == p.front + startMarker + "\n"
            && (l < |lines| ==> && from + |p.indent| + |lines[l]| + 1 <= |r.value|
                                && r.value[from..from + |p.indent| + |lines[l]| + 1] == p.indent + lines[l] + "\n")
            && (l == |lines| ==>
                  r.value[from..] == p.indent + endMarker + if p.after == "" then "" else "\n" + p.after)
  {
    hide ReplaceBlockLines, Find, IndentLines, LineOffset, Tail;
    var p := Find(text, startMarker, endMarker).value;
    ResultShape(text, startMarker, endMarker, lines);
    TailText(p.indent, endMarker, p.after);
    var block, tail := IndentLines(p.indent, lines), Tail(p.indent, endMarker, p.after);
    var top := p.front + startMarker + "\n";
    assert p.front + (startMarker + "\n" + block) + tail == top + block + tail;
    Ends(top, block, tail);
    LinesLength(p.indent, lines);
    if l < |lines| {
      LineInPlace(p.indent, lines, l);
      MiddlePart(top, block, tail, LineOffset(p.indent, lines, l), LineOffset(p.indent, lines, l + 1));
    }
  }

  lemma TailText(indent: string, endMarker: string, after: string)
    ensures Tail(indent, endMarker, after) == indent + endMarker + if after == "" then "" else "\n" + after
  {
  }

  lemma Ends(a: string, b: string, c: string)
    ensures (a + b + c)[..|a|] == a && (a + b + c)[|a| + |b|..] == c
  {
  }

  lemma MiddlePart(a: string, b: string, c: string, from: nat, to: nat)
    requires from <= to <= |b|
    ensures (a + b + c)[|a| + from..|a| + to] == b[from..to]
  {
  }

  /** The head of a block ends a line. */
  ghost predicate EndsLine(h: string) {
    h != "" && h[|h| - 1] == '\n'
  }

  lemma HeadEndsLine(startMarker: string, indent: string, lines: seq<string>)
    ensures EndsLine(Head(startMarker, indent, lines)) && startMarker <= Head(startMarker, indent, lines)
  {
    IndentLinesEndLine(indent, lines);
    var h := Head(startMarker, indent, lines);
    assert h[..|startMarker|] == startMarker;
  }

  lemma {:induction false} IndentLinesEndLine(indent: string, lines: seq<string>)
    ensures IndentLines(indent, lines) != "" ==> EndsLine(IndentLines(indent, lines))
    decreases |lines|
  {
    if lines != [] {
      IndentLinesEndLine(indent, lines[1..]);
    }
  }

  /** In `p + h + t`, where h ends a line, a one-line pattern that begins in h lies in h. */
  lemma OccursInPart(p: string, h: string, t: string, pattern: string, k: nat)
    requires OneLine(pattern) && EndsLine(h)
    requires |p| <= k < |p| + |h|
    ensures OccursAt(p + h + t, pattern, k) <==> OccursAt(h, pattern, k - |p|)
  {
    var s := p + h + t;
    NewlineStops(s, pattern, k, |p| + |h| - 1);
    if k + |pattern| <= |p| + |h| {
      assert s[k..k + |pattern|] == h[k - |p|..k - |p| + |pattern|];
    }
  }

  lemma SamePrefix(a: string, b: string, pattern: string, n: nat, k: nat)
    requires k + |pattern| <= n <= |a| && n <= |b|
    requires a[..n] == b[..n]
    ensures OccursAt(a, pattern, k) <==> OccursAt(b, pattern, k)
  {
    assert a[k..k + |pattern|] == a[..n][k..k + |pattern|];
    assert b[k..k + |pattern|] == b[..n][k..k + |pattern|];
  }

  lemma {:induction false} SameLineStart(a: string, b: string, at: nat)
    requires at < |a| && at < |b| && a[..at + 1] == b[..at + 1]
    ensures LineStart(a, at) == LineStart(b, at)
    decreases at
  {
    assert a[at] == a[..at + 1][at] && b[at] == b[..at + 1][at];
    if at > 0 && a[at] != '\n' {
      assert a[..at] == a[..at + 1][..at] && b[..at] == b[..at + 1][..at];
      SameLineStart(a, b, at - 1);
    }
  }

  lemma {:induction false} LineEndOf(text: string, at: nat, end: nat)
    requires at <= end <= |text|
    requires forall k :: at <= k < end ==> text[k] != '\n'
    ensures LineEnd(text, at) == if end < |text| && text[end] == '\n' then end + 1 else LineEnd(text, end)
    decreases end - at
  {
    if at < end {
      LineEndOf(text, at + 1, end);
    }
  }

  /** A document with the same text up to the end of the first start marker has its start marker there too, ... */
  lemma StartStays(text: string, text': string, startMarker: string, i: nat)
    requires IndexOf(text, startMarker, 0) == Some(i)
    requires i + |startMarker| <= |text'| && text'[..i + |startMarker|] == text[..i + |startMarker|]
    ensures IndexOf(text', startMarker, 0) == Some(i)
  {
    hide IndexOf, OccursAt;
    assert i + |startMarker| <= |text| by {
      assert OccursAt(text, startMarker, i);
      OccursFits(text, startMarker, i);
    }
    forall k: nat | k <= i
      ensures OccursAt(text, startMarker, k) <==> OccursAt(text', startMarker, k)
    {
      SamePrefix(text, text', startMarker, i + |startMarker|, k);
    }
  }

  lemma OccursFits(text: string, pattern: string, k: nat)
    ensures OccursAt(text, pattern, k) ==> k + |pattern| <= |text|
  {
  }

  /** ... and the same indent. */
  lemma IndentStays(text: string, text': string, startMarker: string, i: nat)
    requires startMarker != "" && OneLine(startMarker) && OccursAt(text, startMarker, i)
    requires i + |startMarker| <= |text'| && text'[..i + |startMarker|] == text[..i + |startMarker|]
    ensures LineStart(text', i) == LineStart(text, i) <= i
    ensures SliceText(text', LineStart(text', i), i) == SliceText(text, LineStart(text, i), i)
  {
    hide LineStart;
    var n := i + |startMarker|;
    LineOfMarker(text, startMarker, i);
    assert text[..i + 1] == text[..n][..i + 1] && text'[..i + 1] == text'[..n][..i + 1];
    SameLineStart(text, text', i);
    var a := LineStart(text, i);
    assert text[a..i] == text[..n][a..i] && text'[a..i] == text'[..n][a..i];
  }

  /** Where the end marker of a new block is found: before its last line exactly when the head contains it. */
  lemma EndOfBlock(front: string, h: string, indent: string, endMarker: string, rest: string)
    requires endMarker != "" && OneLine(endMarker) && EndsLine(h)
    ensures var e := IndexOf(front + h + (indent + endMarker + rest), endMarker, |front|);
            && e.Some?
            && e.value <= |front| + |h| + |indent|
            && (Contains(h, endMarker) <==> e.value < |front| + |h|)
  {
    hide IndexOf;
    var t := indent + endMarker + rest;
    var text := front + h + t;
    var last := |front| + |h| + |indent|;
    assert text[last..last + |endMarker|] == endMarker;
    assert OccursAt(text, endMarker, last);
    var e := IndexOf(text, endMarker, |front|).value;
    if e < |front| + |h| {
      OccursInPart(front, h, t, endMarker, e);
      assert OccursAt(h, endMarker, e - |front|);
    }
    if Contains(h, endMarker) {
      var k: nat :| k <= |h| && OccursAt(h, endMarker, k);
      OccursInPart(front, h, t, endMarker, |front| + k);
    }
  }

  /** The last line of a new block ends where the untouched rest begins. */
  lemma LastLineEnds(p: string, line: string, after: string, e: nat)
    requires OneLine(line) && |p| <= e <= |p| + |line|
    ensures var text := p + (line + if after == "" then "" else "\n" + after);
            text[LineEnd(text, e)..] == after
  {
    hide LineEnd;
    var text := p + (line + if after == "" then "" else "\n" + after);
    var end := |p| + |line|;
    forall k | e <= k < end
      ensures text[k] != '\n'
    {
      assert text[k] == line[k - |p|];
    }
    LineEndOf(text, e, end);
    if after != "" {
      assert text[end] == '\n';
      assert text[end + 1..] == after;
    }
  }

  /** A line that begins inside h ends inside h. */
  lemma EarlyLineEnd(p: string, h: string, t: string, e: nat)
    requires EndsLine(h) && |p| <= e < |p| + |h|
    ensures LineEnd(p + h + t, e) <= |p| + |h|
  {
    var s := p + h + t;
    assert s[|p| + |h| - 1] == '\n';
  }

  lemma FoundParts(text: string, startMarker: string, endMarker: string)
    requires Find(text, startMarker, endMarker).Ok?
    ensures IndexOf(text, startMarker, 0) == Some(|Find(text, startMarker, endMarker).value.front|)
    ensures OneLine(Find(text, startMarker, endMarker).value.indent)
  {
    var i := IndexOf(text, startMarker, 0).value;
    var indent := Find(text, startMarker, endMarker).value.indent;
    forall k | 0 <= k < |indent|
      ensures indent[k] != '\n'
    {
      assert indent[k] == text[LineStart(text, i) + k];
    }
  }

  /**
   Reading a new document back: it has the same parts as the old one exactly when the head of its block
   does not contain the end marker; otherwise the part after the block has grown.
   */
  lemma ReadBack(text: string, startMarker: string, endMarker: string, lines: seq<string>)
    requires Markers(startMarker, endMarker) && Find(text, startMarker, endMarker).Ok?
    ensures var p := Find(text, startMarker, endMarker).value;
            var back := Find(Assemble(p, startMarker, endMarker, lines), startMarker, endMarker);
            && back.Ok?
            && back.value.front == p.front && back.value.indent == p.indent
            && (!Contains(Head(startMarker, p.indent, lines), endMarker) ==> back.value.after == p.after)
            && (Contains(Head(startMarker, p.indent, lines), endMarker) ==>
                |back.value.after| >= |Tail(p.indent, endMarker, p.after)|)
  {
    hide IndexOf, LineStart, LineEnd, Contains, OccursAt, Head;
    var p := Find(text, startMarker, endMarker).value;
    var h := Head(startMarker, p.indent, lines);
    var t := Tail(p.indent, endMarker, p.after);
    var text' := p.front + h + t;
    var i := |p.front|;
    FoundParts(text, startMarker, endMarker);
    HeadEndsLine(startMarker, p.indent, lines);
    FrontStays(text, p.front, startMarker, h, t);
    StartStays(text, text', startMarker, i);
    IndentStays(text, text', startMarker, i);
    assert text'[..i] == p.front;
    var rest := if p.after == "" then "" else "\n" + p.after;
    assert t == p.indent + endMarker + rest;
    EndOfBlock(p.front, h, p.indent, endMarker, rest);
    var e := IndexOf(text', endMarker, i).value;
    if Contains(h, endMarker) {
      EarlyLineEnd(p.front, h, t, e);
    } else {
      LastLineEnds(p.front + h, p.indent + endMarker, p.after, e);
      assert text' == p.front + h + (p.indent + endMarker + rest);
    }
  }

  lemma FrontStays(text: string, front: string, startMarker: string, h: string, t: string)
    requires IndexOf(text, startMarker, 0) == Some(|front|) && text[..|front|] == front && startMarker <= h
    ensures var n := |front| + |startMarker|;
            n <= |text| && n <= |front + h + t| && (front + h + t)[..n] == text[..n]
  {
    var n := |front| + |startMarker|;
    assert text[|front|..n] == startMarker;
    assert h[..|startMarker|] == startMarker;
    assert text[..n] == front + startMarker;
    assert (front + h + t)[..n] == front + startMarker;
  }

  /**
   Stability, exactly: replacing the block by `first` and then by `second` gives the same document as
   replacing it by `second` at once, if and only if the head of the first block does not contain the
   end marker.  With `first == second` this is idempotence.
   */
  lemma StableExactly(text: string, startMarker: string, endMarker: string, first: seq<string>, second: seq<string>)
    requires Markers(startMarker, endMarker) && Find(text, startMarker, endMarker).Ok?
    ensures var once := ReplaceBlockLines(text, startMarker, endMarker, first);
            once.Ok? &&
            (ReplaceBlockLines(once.value, startMarker, endMarker, second)
             == ReplaceBlockLines(text, startMarker, endMarker, second)
             <==> !Contains(Head(startMarker, Find(text, startMarker, endMarker).value.indent, first), endMarker))
  {
    hide ReplaceBlockLines, Find, Contains, Head;
    var p := Find(text, startMarker, endMarker).value;
    ResultShape(text, startMarker, endMarker, first);
    ResultShape(text, startMarker, endMarker, second);
    ResultShape(Assemble(p, startMarker, endMarker, first), startMarker, endMarker, second);
    ReadBack(text, startMarker, endMarker, first);
  }

  /** With a white-space indent, a pattern that does not begin with white space sits inside some line's own text. */
  lemma {:induction false} IndentedLinesAreFree(indent: string, lines: seq<string>, pattern: string)
    requires pattern != "" && OneLine(pattern) && !IsSpace(pattern[0])
    requires forall k :: 0 <= k < |indent| ==> IsSpace(indent[k])
    requires forall l :: 0 <= l < |lines| ==> !Contains(lines[l], pattern)
    ensures !Contains(IndentLines(indent, lines), pattern)
    decreases |lines|
  {
    hide IsSpace, OccursAt, OneLine;
    if lines == [] {
      NoneInEmpty(pattern);
    } else {
      assert forall l :: 0 <= l < |lines| - 1 ==> lines[1..][l] == lines[l + 1];
      IndentedLinesAreFree(indent, lines[1..], pattern);
      OneMoreLine(indent, lines[0], IndentLines(indent, lines[1..]), pattern);
    }
  }

  lemma NoneInEmpty(pattern: string)
    requires pattern != ""
    ensures !Contains("", pattern)
  {
  }

  lemma OneMoreLine(indent: string, line: string, rest: string, pattern: string)
    requires pattern != "" && OneLine(pattern) && !IsSpace(pattern[0])
    requires forall k :: 0 <= k < |indent| ==> IsSpace(indent[k])
    requires !Contains(line, pattern) && !Contains(rest, pattern)
    ensures !Contains(indent + line + "\n" + rest, pattern)
  {
    var full := indent + line + "\n";
    var all := full + rest;
    forall k: nat | k <= |all|
      ensures !OccursAt(all, pattern, k)
    {
      if k < |full| {
        assert [] + full + rest == all;
        OccursInPart([], full, rest, pattern, k);
        OccursInIndented(indent, line, pattern, k);
      } else if k + |pattern| <= |all| {
        assert all[k..k + |pattern|] == rest[k - |full|..k - |full| + |pattern|];
        assert !OccursAt(rest, pattern, k - |full|);
      }
    }
  }

  lemma OccursInIndented(indent: string, line: string, pattern: string, k: nat)
    requires pattern != "" && OneLine(pattern) && !IsSpace(pattern[0])
    requires forall k :: 0 <= k < |indent| ==> IsSpace(indent[k])
    requires !Contains(line, pattern)
    ensures !OccursAt(indent + line + "\n", pattern, k)
  {
    hide IsSpace;
    var s := indent + line + "\n";
    var n := |pattern|;
    NewlineStops(s, pattern, k, |s| - 1);
    if k < |indent| && k + n <= |s| {
      assert s[k..k + n][0] == indent[k];
    } else if k + n < |s| {
      assert s[k..k + n] == line[k - |indent|..k - |indent| + n];
      assert !OccursAt(line, pattern, k - |indent|);
    }
  }

  /**
   The everyday case: with a white-space indent, an end marker that does not begin with white space, and
   neither the start marker nor any replacement line containing the end marker, every later
   replacement gives what it would have given directly, and repeating a replacement changes nothing.
   */
  lemma Stable(text: string, startMarker: string, endMarker: string, first: seq<string>, second: seq<string>)
    requires Markers(startMarker, endMarker) && Find(text, startMarker, endMarker).Ok?
    requires !IsSpace(endMarker[0]) && !Contains(startMarker, endMarker)
    requires var indent := Find(text, startMarker, endMarker).value.indent;
             forall k :: 0 <= k < |indent| ==> IsSpace(indent[k])
    requires forall l :: 0 <= l < |first| ==> !Contains(first[l], endMarker)
    ensures var once := ReplaceBlockLines(text, startMarker, endMarker, first);
            && once.Ok?
            && ReplaceBlockLines(once.value, startMarker, endMarker, second)
                == ReplaceBlockLines(text, startMarker, endMarker, second)
            && ReplaceBlockLines(once.value, startMarker, endMarker, first) == once
  {
    hide ReplaceBlockLines, Find, Contains, IndentLines, IsSpace;
    var indent := Find(text, startMarker, endMarker).value.indent;
    IndentedLinesAreFree(indent, first, endMarker);
    OneMoreLine([], startMarker, IndentLines(indent, first), endMarker);
    assert [] + startMarker + "\n" + IndentLines(indent, first) == Head(startMarker, indent, first);
    StableExactly(text, startMarker, endMarker, first, second);
    StableExactly(text, startMarker, endMarker, first, first);
  }

  lemma NoNewline()
    ensures OneLine("<x>") && OneLine("x")
  {
  }

  /** The condition is not idle: a start marker that contains the end marker makes the block grow. */
  lemma NestedMarkerGrows()
    ensures var text := "<x>\nx";
            var once := ReplaceBlockLines(text, "<x>", "x", []);
            once.Ok? && ReplaceBlockLines(once.value, "<x>", "x", []) != once
  {
    hide IndexOf, LineStart, LineEnd, ReplaceBlockLines, IndentLines, SliceText, OneLine;
    var text := "<x>\nx";
    assert OneLine("<x>") && OneLine("x") by {
      NoNewline();
    }
    assert text[0..3] == "<x>" && OccursAt(text, "<x>", 0);
    assert IndexOf(text, "<x>", 0) == Some(0);
    assert text[1..2] == "x" && OccursAt(text, "x", 1);
    assert Find(text, "<x>", "x").Ok?;
    var h := Head("<x>", Find(text, "<x>", "x").value.indent, []);
    assert h[1..2] == "x" && OccursAt(h, "x", 1);
    StableExactly(text, "<x>", "x", [], []);
  }

  /** The only newline a replacement can lose is one that ends the document right after the end marker's line. */
  lemma FinalNewline(text: string, startMarker: string, endMarker: string, lines: seq<string>)
    requires Markers(startMarker, endMarker) && Find(text, startMarker, endMarker).Ok?
    ensures var r := ReplaceBlockLines(text, startMarker, endMarker, lines);
            var after := Find(text, startMarker, endMarker).value.after;
            && r.Ok?
            && (after != "" ==> && |after| < |r.value| && r.value[|r.value| - |after|..] == after
                                && r.value[|r.value| - |after| - 1] == '\n')
            && (after == "" ==> r.value != "" && r.value[|r.value| - 1] != '\n')
  {
    hide ReplaceBlockLines, Find, Head;
    ResultShape(text, startMarker, endMarker, lines);
    var p := Find(text, startMarker, endMarker).value;
    var r := ReplaceBlockLines(text, startMarker, endMarker, lines).value;
    var front := p.front + Head(startMarker, p.indent, lines) + (p.indent + endMarker);
    assert endMarker[|endMarker| - 1] in endMarker;
    if p.after != "" {
      assert r == front + "\n" + p.after;
    } else {
      assert r == front;
      assert r[|r| - 1] == endMarker[|endMarker| - 1];
    }
  }
}
