/** Slicing and truncating UTF-16 text without cutting a surrogate pair in two. */
module Utf16 {
  import opened Options

  type CodeUnit = u: int | 0 <= u < 0x10000

  type Text = seq<CodeUnit>

  predicate IsHighSurrogate(u: CodeUnit) {
    0xD800 <= u <= 0xDBFF
  }

  predicate IsLowSurrogate(u: CodeUnit) {
    0xDC00 <= u <= 0xDFFF
  }

  /** Position i does not fall inside a surrogate pair. */
  predicate Boundary(s: Text, i: nat)
    requires i <= |s|
  {
    !(0 < i < |s| && IsHighSurrogate(s[i - 1]) && IsLowSurrogate(s[i]))
  }

  /** `String.slice` on offsets that are already within the string. */
  function JsSlice(s: Text, from: nat, to: nat): Text
    requires from <= |s| && to <= |s|
  {
    if from <= to then s[from..to] else []
  }

  /** An offset counted from the end when negative, clamped to the string. */
  function Clamp(len: nat, offset: int): (i: nat)
    ensures i <= len
  {
    if offset < 0 then Max(len + offset, 0) else Min(offset, len)
  }

  /** The range that the offsets select, in order. */
  function Range(len: nat, start: int, end: Option<int>): (r: (nat, nat))
    ensures r.0 <= r.1 <= len
  {
    var from := Clamp(len, start);
    var to := if end.None? then len else Clamp(len, end.value);
    if to < from then (to, from) else (from, to)
  }

  /** The first boundary at or after i, and the last at or before it: pairs do not overlap. */
  function Up(s: Text, i: nat): (j: nat)
    requires i <= |s|
    ensures i <= j <= |s| && Boundary(s, j)
    ensures forall k :: i <= k <= |s| && Boundary(s, k) ==> j <= k
  {
    if Boundary(s, i) then i else i + 1
  }

  function Down(s: Text, i: nat): (j: nat)
    requires i <= |s|
    ensures j <= i && Boundary(s, j)
    ensures forall k :: 0 <= k <= i && Boundary(s, k) ==> k <= j
  {
    if Boundary(s, i) then i else i - 1
  }

  /** An offset counts from the start, or from the end when it is negative, and never leaves the text. */
  lemma ClampExactly(len: nat, offset: int)
    ensures 0 <= offset <= len ==> Clamp(len, offset) == offset
    ensures offset > len ==> Clamp(len, offset) == len
    ensures offset < 0 <= len + offset ==> Clamp(len, offset) == len + offset
    ensures len + offset < 0 ==> Clamp(len, offset) == 0
  {
  }

  /** The two offsets in increasing order, a missing end being the end of the text. */
  lemma RangeExactly(len: nat, start: int, end: Option<int>)
    ensures var a, b := Clamp(len, start), if end.Some? then Clamp(len, end.value) else len;
            Range(len, start, end) == (Min(a, b), Max(a, b))
  {
  }

  function Sliced(s: Text, start: int, end: Option<int>): Text {
    var (lo, hi) := Range(|s|, start, end);
    JsSlice(s, Up(s, lo), Down(s, hi))
  }

  lemma SliceOfRange(s: Text, start: int, end: Option<int>, a: nat, b: nat)
    requires a <= b <= |s| && Boundary(s, a) && Boundary(s, b) && Range(|s|, start, end) == (a, b)
    ensures Sliced(s, start, end) == s[a..b]
  {
    hide Range, Boundary;
  }

  /** Between offsets that split no pair, the slice is what lies between them, in whatever order they are given. */
  lemma SliceBetween(s: Text, a: nat, b: nat)
    requires a <= b <= |s| && Boundary(s, a) && Boundary(s, b)
    ensures Sliced(s, a, Some(b)) == Sliced(s, b, Some(a)) == s[a..b]
    ensures Sliced(s, a, None) == s[a..]
    ensures a < b < |s| ==> Sliced(s, a - |s|, Some(b)) == Sliced(s, a - |s|, Some(b - |s|)) == s[a..b]
  {
    hide Sliced, Boundary;
    SliceOfRange(s, a, Some(b), a, b);
    SliceOfRange(s, b, Some(a), a, b);
    TextEnds(s);
    SliceOfRange(s, a, None, a, |s|);
    if a < b < |s| {
      SliceOfRange(s, a - |s|, Some(b), a, b);
      SliceOfRange(s, a - |s|, Some(b - |s|), a, b);
    }
  }

  lemma TextEnds(s: Text)
    ensures Boundary(s, |s|)
  {
  }

  method SliceUtf16Safe(input: Text, start: int, end: Option<int>) returns (r: Text)
    ensures r == Sliced(input, start, end)
  {
    var len := |input|;
    var from := if start < 0 then Max(len + start, 0) else Min(start, len);
    var to := if end.None? then len else if end.value < 0 then Max(len + end.value, 0) else Min(end.value, len);
    if to < from {
      from, to := to, from;
    }
    ghost var lo, hi := from, to;
    assert (lo, hi) == Range(len, start, end);
    if 0 < from < len {
      if IsLowSurrogate(input[from]) && IsHighSurrogate(input[from - 1]) {
        from := from + 1;
      }
    }
    assert from == Up(input, lo);
    if 0 < to < len {
      if IsHighSurrogate(input[to - 1]) && IsLowSurrogate(input[to]) {
        to := to - 1;
      }
    }
    assert to == Down(input, hi);
    r := JsSlice(input, from, to);
  }

  function TruncateUtf16Safe(s: Text, maxLen: real): Text {
    var limit := Max(0, maxLen.Floor);
    if |s| <= limit then s else Sliced(s, 0, Some(limit))
  }

  // ---------------------------------------------------------------- well-formed text

  /** Section 3.9 of the Unicode Standard: every surrogate is half of a pair. */
  ghost predicate WellFormed(s: Text) {
    || s == []
    || (!IsHighSurrogate(s[0]) && !IsLowSurrogate(s[0]) && WellFormed(s[1..]))
    || (|s| >= 2 && IsHighSurrogate(s[0]) && IsLowSurrogate(s[1]) && WellFormed(s[2..]))
  }

  /** A Unicode scalar value. */
  type Scalar = c: int | 0 <= c < 0x110000 && !(0xD800 <= c <= 0xDFFF)

  /** Section 2.1 of RFC 2781. */
  function EncodeOne(c: Scalar): Text {
    if c < 0x10000 then [c]
    else [0xD800 + (c - 0x10000) / 0x400, 0xDC00 + (c - 0x10000) % 0x400]
  }

  function Encode(cs: seq<Scalar>): Text {
    if cs == [] then [] else EncodeOne(cs[0]) + Encode(cs[1..])
  }

  /** Section 2.2 of RFC 2781. */
  ghost function Decode(s: Text): (cs: seq<Scalar>)
    requires WellFormed(s)
    ensures Encode(cs) == s
  {
    if s == [] then []
    else if !IsHighSurrogate(s[0]) && !IsLowSurrogate(s[0]) then
      var rest := Decode(s[1..]);
      assert s == [s[0]] + s[1..];
      [s[0]] + rest
    else
      var c: int := 0x10000 + (s[0] as int - 0xD800) * 0x400 + (s[1] as int - 0xDC00);
      assert EncodeOne(c) == s[..2];
      var rest := Decode(s[2..]);
      assert s == s[..2] + s[2..];
      [c] + rest
  }

  lemma {:induction false} EncodeIsWellFormed(cs: seq<Scalar>)
    ensures WellFormed(Encode(cs))
    decreases |cs|
  {
    if cs != [] {
      EncodeIsWellFormed(cs[1..]);
      var rest := Encode(cs[1..]);
      if cs[0] < 0x10000 {
        assert Encode(cs)[1..] == rest;
      } else {
        assert IsHighSurrogate(EncodeOne(cs[0])[0]) && IsLowSurrogate(EncodeOne(cs[0])[1]);
        assert Encode(cs)[2..] == rest;
      }
    }
  }

  /** Well-formed text is exactly the encoding of some scalar values. */
  lemma WellFormedExactly(s: Text)
    ensures WellFormed(s) <==> exists cs :: Encode(cs) == s
  {
    if WellFormed(s) {
      assert Encode(Decode(s)) == s;
    }
    if cs :| Encode(cs) == s {
      EncodeIsWellFormed(cs);
    }
  }

  /** In well-formed text, a prefix is well-formed exactly when it ends on a boundary; so is a suffix. */
  lemma {:induction false} BoundaryExactly(s: Text, i: nat)
    requires WellFormed(s) && i <= |s|
    ensures WellFormed(s[..i]) <==> Boundary(s, i)
    ensures WellFormed(s[i..]) <==> Boundary(s, i)
    decreases |s|
  {
    if i > 0 {
      if IsHighSurrogate(s[0]) {
        if i == 1 {
          assert s[..1][0] == s[0] && s[1..][0] == s[1];
        } else {
          BoundaryExactly(s[2..], i - 2);
          assert s[..i][2..] == s[2..][..i - 2] && s[2..][i - 2..] == s[i..];
        }
      } else {
        BoundaryExactly(s[1..], i - 1);
        assert s[..i][1..] == s[1..][..i - 1] && s[1..][i - 1..] == s[i..];
      }
    }
  }

  /** Slicing well-formed text gives well-formed text, for all offsets, negative and swapped ones included. */
  lemma SliceIsWellFormed(s: Text, start: int, end: Option<int>)
    requires WellFormed(s)
    ensures WellFormed(Sliced(s, start, end))
  {
    var (lo, hi) := Range(|s|, start, end);
    RangeIsWellFormed(s, Up(s, lo), Down(s, hi));
  }

  lemma RangeIsWellFormed(s: Text, a: nat, b: nat)
    requires WellFormed(s) && a <= |s| && b <= |s| && Boundary(s, a) && Boundary(s, b)
    ensures WellFormed(JsSlice(s, a, b))
  {
    if a < b {
      BoundaryExactly(s, a);
      assert Boundary(s[a..], b - a);
      BoundaryExactly(s[a..], b - a);
      assert s[a..][..b - a] == s[a..b];
    }
  }

  /**
   In terms of characters: a slice of the encoding of some scalar values is the encoding of a
   contiguous run of them.
   */
  lemma SliceIsCharacters(cs: seq<Scalar>, start: int, end: Option<int>)
    ensures exists i, j :: 0 <= i <= j <= |cs| && Sliced(Encode(cs), start, end) == Encode(cs[i..j])
  {
    var s := Encode(cs);
    EncodeIsWellFormed(cs);
    var (lo, hi) := Range(|s|, start, end);
    var a, b := Up(s, lo), Down(s, hi);
    if a <= b {
      var i := CharacterAt(cs, a);
      var j := CharacterAt(cs, b);
      if j < i {
        EncodePrefixLonger(cs, j, i);
      }
      EncodeSplit(cs, i, j);
      assert Sliced(s, start, end) == Encode(cs[i..j]);
    } else {
      assert Sliced(s, start, end) == Encode(cs[0..0]);
    }
  }

  lemma {:induction false} EncodeConcat(a: seq<Scalar>, b: seq<Scalar>)
    ensures Encode(a + b) == Encode(a) + Encode(b)
    decreases |a|
  {
    if a == [] {
      assert a + b == b;
    } else {
      EncodeConcat(a[1..], b);
      assert (a + b)[1..] == a[1..] + b;
    }
  }

  lemma NoBoundaryInside(c: Scalar, rest: Text, a: nat)
    ensures 0 < a < |EncodeOne(c)| ==> !Boundary(EncodeOne(c) + rest, a)
  {
  }

  /** Every boundary of an encoding is where some character starts, or the end. */
  lemma {:induction false} CharacterAt(cs: seq<Scalar>, a: nat) returns (i: nat)
    requires a <= |Encode(cs)| && Boundary(Encode(cs), a)
    ensures i <= |cs| && |Encode(cs[..i])| == a
    decreases |cs|
  {
    if a == 0 {
      i := 0;
    } else {
      var s, one, rest := Encode(cs), EncodeOne(cs[0]), Encode(cs[1..]);
      assert s == one + rest;
      NoBoundaryInside(cs[0], rest, a);
      if 0 < a - |one| < |rest| {
        assert s[a - 1] == rest[a - |one| - 1] && s[a] == rest[a - |one|];
      }
      var k := CharacterAt(cs[1..], a - |one|);
      i := k + 1;
      assert cs[..i] == [cs[0]] + cs[1..][..k];
    }
  }

  lemma EncodePrefixLonger(cs: seq<Scalar>, j: nat, i: nat)
    requires j < i <= |cs|
    ensures |Encode(cs[..j])| < |Encode(cs[..i])|
  {
    assert cs[..i] == cs[..j] + cs[j..i];
    EncodeConcat(cs[..j], cs[j..i]);
  }

  lemma EncodeSplit(cs: seq<Scalar>, i: nat, j: nat)
    requires i <= j <= |cs|
    ensures Encode(cs) == Encode(cs[..i]) + Encode(cs[i..j]) + Encode(cs[j..])
    ensures Encode(cs[..j]) == Encode(cs[..i]) + Encode(cs[i..j])
  {
    hide Encode;
    assert cs == cs[..j] + cs[j..] && cs[..j] == cs[..i] + cs[i..j];
    EncodeConcat(cs[..j], cs[j..]);
    EncodeConcat(cs[..i], cs[i..j]);
  }

  /** On any text, well-formed or not: the slice is the largest part of the range with both ends on boundaries. */
  lemma SliceIsLargest(s: Text, start: int, end: Option<int>, x: nat, y: nat)
    requires var (lo, hi) := Range(|s|, start, end); lo <= x <= y <= hi
    requires Boundary(s, x) && Boundary(s, y)
    ensures var (lo, hi) := Range(|s|, start, end);
            exists a, b :: lo <= a <= x <= y <= b <= hi && Sliced(s, start, end) == s[a..b] && Boundary(s, a)
                && Boundary(s, b)
  {
    var (lo, hi) := Range(|s|, start, end);
    var a, b := Up(s, lo), Down(s, hi);
    assert lo <= a <= x <= y <= b <= hi && Sliced(s, start, end) == s[a..b];
  }

  /** Truncation gives the longest well-formed prefix that fits. */
  lemma TruncateIsLongest(s: Text, maxLen: real)
    requires WellFormed(s)
    ensures var r := TruncateUtf16Safe(s, maxLen);
            && r <= s && WellFormed(r) && |r| <= Max(0, maxLen.Floor)
            && forall p: Text :: p <= s && WellFormed(p) && |p| <= Max(0, maxLen.Floor) ==> p <= r
  {
    var limit := Max(0, maxLen.Floor);
    var r := TruncateUtf16Safe(s, maxLen);
    if |s| > limit {
      SliceIsWellFormed(s, 0, Some(limit));
      assert r == if Boundary(s, limit) then s[..limit] else s[..limit - 1];
      forall p: Text | p <= s && WellFormed(p) && |p| <= limit
        ensures p <= r
      {
        assert p == s[..|p|];
        BoundaryExactly(s, |p|);
      }
    }
  }

  /** Truncating twice is truncating once to the smaller length, on any text. */
  lemma TruncateTwice(s: Text, a: real, b: real)
    ensures TruncateUtf16Safe(TruncateUtf16Safe(s, a), b) == TruncateUtf16Safe(s, if a < b then a else b)
  {
    var la, lb := Max(0, a.Floor), Max(0, b.Floor);
    TruncateAt(s, la);
    TruncateAt(s, lb);
    TruncateAt(TruncateAtOf(s, la), lb);
    assert TruncateUtf16Safe(s, a) == TruncateAtOf(s, la);
  }

  ghost function TruncateAtOf(s: Text, limit: nat): Text {
    if |s| <= limit then s else if Boundary(s, limit) then s[..limit] else s[..limit - 1]
  }

  lemma TruncateAt(s: Text, limit: nat)
    ensures (if |s| <= limit then s else Sliced(s, 0, Some(limit))) == TruncateAtOf(s, limit)
  {
  }
}
