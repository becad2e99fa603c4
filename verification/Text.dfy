/** String primitives shared by the models: ECMAScript trimming and decimal numerals. */
module Text {

  /** The code points that ECMAScript's `trim` strips (white space and line terminators). */
  predicate IsSpace(c: char) {
    || c == ' ' || '\U{0009}' <= c <= '\U{000D}' || c == '\U{00A0}' || c == '\U{1680}'
    || '\U{2000}' <= c <= '\U{200A}' || c == '\U{2028}' || c == '\U{2029}'
    || c == '\U{202F}' || c == '\U{205F}' || c == '\U{3000}' || c == '\U{FEFF}'
  }

  function TrimStart(s: string): string {
    if s != [] && IsSpace(s[0]) then TrimStart(s[1..]) else s
  }

  function TrimEnd(s: string): string {
    if s != [] && IsSpace(s[|s| - 1]) then TrimEnd(s[..|s| - 1]) else s
  }

  function Trim(s: string): string {
    TrimEnd(TrimStart(s))
  }

  /** A string that neither begins nor ends with white space. */
  predicate Tidy(s: string) {
    s == [] || (!IsSpace(s[0]) && !IsSpace(s[|s| - 1]))
  }

  lemma {:induction false} TrimEndKeepsHead(s: string)
    requires s != [] && !IsSpace(s[0])
    ensures TrimEnd(s) != [] && TrimEnd(s)[0] == s[0] && !IsSpace(TrimEnd(s)[|TrimEnd(s)| - 1])
  {
    if IsSpace(s[|s| - 1]) {
      assert |s| > 1;
      TrimEndKeepsHead(s[..|s| - 1]);
    }
  }

  lemma {:induction false} TrimStartHead(s: string)
    ensures TrimStart(s) == [] || !IsSpace(TrimStart(s)[0])
  {
    if s != [] && IsSpace(s[0]) {
      TrimStartHead(s[1..]);
    }
  }

  lemma TrimIsTidy(s: string)
    ensures Tidy(Trim(s))
  {
    TrimStartHead(s);
    if TrimStart(s) != [] {
      TrimEndKeepsHead(TrimStart(s));
    }
  }

  /** Trimming leaves exactly the tidy strings alone; in particular it is idempotent. */
  lemma TrimFixpoint(s: string)
    ensures Trim(s) == s <==> Tidy(s)
    ensures Trim(Trim(s)) == Trim(s)
  {
    TrimIsTidy(s);
  }

  /** The code points that count as white space, one by one. */
  lemma SpaceExactly(c: char)
    ensures IsSpace(c) <==>
      (c as int) in {0x9, 0xA, 0xB, 0xC, 0xD, 0x20, 0xA0, 0x1680, 0x2000, 0x2001, 0x2002, 0x2003, 0x2004, 0x2005,
                     0x2006, 0x2007, 0x2008, 0x2009, 0x200A, 0x2028, 0x2029, 0x202F, 0x205F, 0x3000, 0xFEFF}
  {
  }

  lemma {:induction false} TrimStartCuts(s: string) returns (i: nat)
    ensures i <= |s| && TrimStart(s) == s[i..] && forall k :: 0 <= k < i ==> IsSpace(s[k])
  {
    hide IsSpace;
    i := 0;
    if s != [] && IsSpace(s[0]) {
      var j := TrimStartCuts(s[1..]);
      i := j + 1;
      assert s[1..][j..] == s[i..];
      assert forall k :: 0 < k < i ==> s[k] == s[1..][k - 1];
    }
  }

  lemma {:induction false} TrimEndCuts(s: string) returns (j: nat)
    ensures j <= |s| && TrimEnd(s) == s[..j] && forall k :: j <= k < |s| ==> IsSpace(s[k])
  {
    hide IsSpace;
    j := |s|;
    if s != [] && IsSpace(s[|s| - 1]) {
      j := TrimEndCuts(s[..|s| - 1]);
      assert s[..|s| - 1][..j] == s[..j];
    }
  }

  /** Trimming cuts off white space at both ends and nothing else, and leaves none there. */
  lemma TrimExactly(s: string) returns (i: nat, j: nat)
    ensures i <= j <= |s| && Trim(s) == s[i..j] && Tidy(Trim(s))
    ensures forall k :: 0 <= k < |s| && !(i <= k < j) ==> IsSpace(s[k])
  {
    hide IsSpace, TrimStart, TrimEnd;
    TrimIsTidy(s);
    i := TrimStartCuts(s);
    var n := TrimEndCuts(s[i..]);
    j := i + n;
    assert s[i..][..n] == s[i..j];
    assert forall k :: j <= k < |s| ==> s[k] == s[i..][k - i];
  }

  function Digit(d: nat): char
    requires d < 10
  {
    '0' + (d as char)
  }

  predicate IsDigit(c: char) {
    '0' <= c <= '9'
  }

  function DigitValue(c: char): (v: nat)
    requires IsDigit(c)
    ensures v < 10 && Digit(v) == c
  {
    (c - '0') as nat
  }

  predicate AllDigits(s: string) {
    forall i :: 0 <= i < |s| ==> IsDigit(s[i])
  }

  /** The decimal numeral of a natural number, without leading zeros. */
  function Numeral(n: nat): (s: string)
    ensures AllDigits(s) && s != []
  {
    if n < 10 then [Digit(n)] else Numeral(n / 10) + [Digit(n % 10)]
  }

  function IntNumeral(n: int): string {
    if n < 0 then "-" + Numeral(-n) else Numeral(n)
  }

  /** The number that a string of digits denotes. */
  function NumberOf(s: string): nat
    requires AllDigits(s)
  {
    if s == [] then 0 else 10 * NumberOf(s[..|s| - 1]) + DigitValue(s[|s| - 1])
  }

  lemma NumberOfSnoc(s: string, d: nat)
    requires AllDigits(s) && d < 10
    ensures AllDigits(s + [Digit(d)])
    ensures NumberOf(s + [Digit(d)]) == 10 * NumberOf(s) + d
  {
    assert (s + [Digit(d)])[..|s|] == s;
  }

  lemma {:induction false} NumberOfNumeral(n: nat)
    ensures NumberOf(Numeral(n)) == n
  {
    if n < 10 {
      NumberOfSnoc([], n);
      assert [] + [Digit(n)] == [Digit(n)];
    } else {
      NumberOfNumeral(n / 10);
      NumberOfSnoc(Numeral(n / 10), n % 10);
    }
  }

  lemma IntNumeralInjective(a: int, b: int)
    ensures IntNumeral(a) == IntNumeral(b) <==> a == b
    ensures IntNumeral(a) != ""
  {
    if IntNumeral(a) == IntNumeral(b) {
      assert a < 0 ==> IntNumeral(a)[0] == '-' && IntNumeral(a)[1..] == Numeral(-a);
      assert b < 0 ==> IntNumeral(b)[0] == '-' && IntNumeral(b)[1..] == Numeral(-b);
      assert IsDigit(Numeral(if a < 0 then -a else a)[0]) && IsDigit(Numeral(if b < 0 then -b else b)[0]);
      NumberOfNumeral(if a < 0 then -a else a);
      NumberOfNumeral(if b < 0 then -b else b);
    }
  }

  /** Truncation toward zero, `Math.trunc` on finite numbers. */
  function Trunc(x: real): int {
    if x >= 0.0 then x.Floor else -((-x).Floor)
  }

  /** Truncation drops less than one and never changes the sign. */
  lemma TruncExactly(x: real, n: int)
    ensures Trunc(x) == n
        <==> if x >= 0.0 then 0.0 <= n as real <= x < n as real + 1.0 else n as real - 1.0 < x <= n as real <= 0.0
  {
  }
}
