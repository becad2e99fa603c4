/**
 The device-pairing setup code: the payload bytes in base64 (section 4 of RFC 4648), with two
 characters exchanged and the padding dropped (sections 3.2 and 5), and the decoder of the mobile apps.
 */
module SetupCode {
  import opened Options

  type Byte = b: int | 0 <= b < 256

  type Sextet = v: int | 0 <= v < 64

  /** Table 1 of RFC 4648. */
  function Symbol(v: Sextet): char {
    if v < 26 then 'A' + (v as char)
    else if v < 52 then 'a' + ((v - 26) as char)
    else if v < 62 then '0' + ((v - 52) as char)
    else if v == 62 then '+' else '/'
  }

  function Value(c: char): Option<Sextet> {
    if 'A' <= c <= 'Z' then Some((c - 'A') as int)
    else if 'a' <= c <= 'z' then Some((c - 'a') as int + 26)
    else if '0' <= c <= '9' then Some((c - '0') as int + 52)
    else if c == '+' then Some(62)
    else if c == '/' then Some(63)
    else None
  }

  lemma ValueOfSymbol(v: Sextet)
    ensures Value(Symbol(v)) == Some(v)
    ensures Symbol(v) != '='
  {
  }

  /** The four sextets of three bytes. */
  function Split(a: Byte, b: Byte, c: Byte): (r: (Sextet, Sextet, Sextet, Sextet)) {
    (a / 4, a % 4 * 16 + b / 16, b % 16 * 4 + c / 64, c % 64)
  }

  function Join(p: Sextet, q: Sextet, r: Sextet, s: Sextet): (Byte, Byte, Byte) {
    (p * 4 + q / 16, q % 16 * 16 + r / 4, r % 4 * 64 + s)
  }

  lemma JoinOfSplit(a: Byte, b: Byte, c: Byte)
    ensures var (p, q, r, s) := Split(a, b, c); Join(p, q, r, s) == (a, b, c)
  {
    var x, y, u, v, w, t := a / 4, a % 4, b / 16, b % 16, c / 64, c % 64;
    Parts(a, 4);
    Parts(b, 16);
    Parts(c, 64);
    Regrouped(y, u, 16);
    Regrouped(v, w, 4);
  }

  lemma Parts(n: nat, k: nat)
    requires k > 0
    ensures n == n / k * k + n % k && 0 <= n % k < k
  {
  }

  lemma Regrouped(high: nat, low: nat, k: nat)
    requires low < k && (k == 4 || k == 16)
    ensures (high * k + low) / k == high && (high * k + low) % k == low
  {
  }

  /** `Buffer.toString("base64")`. */
  function Base64(bytes: seq<Byte>): string {
    if bytes == [] then ""
    else if |bytes| == 1 then
      var (p, q, _, _) := Split(bytes[0], 0, 0);
      [Symbol(p), Symbol(q), '=', '=']
    else if |bytes| == 2 then
      var (p, q, r, _) := Split(bytes[0], bytes[1], 0);
      [Symbol(p), Symbol(q), Symbol(r), '=']
    else
      var (p, q, r, s) := Split(bytes[0], bytes[1], bytes[2]);
      [Symbol(p), Symbol(q), Symbol(r), Symbol(s)] + Base64(bytes[3..])
  }

  function ReplaceAll(s: string, from: char, to: char): string {
    seq(|s|, i requires 0 <= i < |s| => if s[i] == from then to else s[i])
  }

  /** `replace(/=+$/g, "")`. */
  function DropPadding(s: string): string {
    if s != [] && s[|s| - 1] == '=' then DropPadding(s[..|s| - 1]) else s
  }

  function EncodeSetupCode(payload: seq<Byte>): string {
    DropPadding(ReplaceAll(ReplaceAll(Base64(payload), '+', '-'), '/', '_'))
  }

  // ---------------------------------------------------------------- the decoder

  /** Strict base64 decoding of padded text. */
  function DecodeBase64(s: string): Option<seq<Byte>> {
    if s == [] then Some([])
    else if |s| < 4 || Value(s[0]).None? || Value(s[1]).None? then None
    else
      var p, q := Value(s[0]).value, Value(s[1]).value;
      if s[2..] == "==" then Some([Join(p, q, 0, 0).0])
      else if Value(s[2]).None? then None
      else
        var r := Value(s[2]).value;
        if s[3..] == "=" then Some([Join(p, q, r, 0).0, Join(p, q, r, 0).1])
        else if Value(s[3]).None? then None
        else
          var (a, b, c) := Join(p, q, r, Value(s[3]).value);
          match DecodeBase64(s[4..])
          case None => None
          case Some(rest) => Some([a, b, c] + rest)
  }

  function Pad(s: string): string {
    if |s| % 4 == 0 then s else s + seq(4 - |s| % 4, _ => '=')
  }

  function DecodeSetupCode(code: string): Option<seq<Byte>> {
    DecodeBase64(Pad(ReplaceAll(ReplaceAll(code, '-', '+'), '_', '/')))
  }

  // ---------------------------------------------------------------- laws

  /** Standard base64 without its padding. */
  function Unpadded(bytes: seq<Byte>): string {
    if bytes == [] then ""
    else if |bytes| == 1 then
      var (p, q, _, _) := Split(bytes[0], 0, 0);
      [Symbol(p), Symbol(q)]
    else if |bytes| == 2 then
      var (p, q, r, _) := Split(bytes[0], bytes[1], 0);
      [Symbol(p), Symbol(q), Symbol(r)]
    else
      var (p, q, r, s) := Split(bytes[0], bytes[1], bytes[2]);
      [Symbol(p), Symbol(q), Symbol(r), Symbol(s)] + Unpadded(bytes[3..])
  }

  ghost predicate Standard(s: string) {
    forall i :: 0 <= i < |s| ==> Value(s[i]).Some?
  }

  function Fill(n: nat): string {
    seq(n, _ => '=')
  }

  lemma {:induction false} UnpaddedIsStandard(bytes: seq<Byte>)
    ensures Standard(Unpadded(bytes))
    decreases |bytes|
  {
    hide Value, Symbol, Split;
    if bytes != [] {
      var b1, b2 := if |bytes| > 1 then bytes[1] else 0, if |bytes| > 2 then bytes[2] else 0;
      var (p, q, r, s) := Split(bytes[0], b1, b2);
      ValueOfSymbol(p);
      ValueOfSymbol(q);
      ValueOfSymbol(r);
      ValueOfSymbol(s);
      if |bytes| > 2 {
        UnpaddedIsStandard(bytes[3..]);
      }
    }
  }

  /** How many symbols the last, incomplete group of n bytes takes, and how much padding. */
  function TailSymbols(n: nat): nat {
    if n % 3 == 0 then 0 else n % 3 + 1
  }

  function PadCount(n: nat): nat {
    if n % 3 == 0 then 0 else 3 - n % 3
  }

  lemma {:induction false} UnpaddedLength(bytes: seq<Byte>)
    ensures |Unpadded(bytes)| == 4 * (|bytes| / 3) + TailSymbols(|bytes|)
    decreases |bytes|
  {
    hide Symbol, Split;
    if |bytes| > 2 {
      UnpaddedLength(bytes[3..]);
    }
  }

  /** Base64 text is symbols followed by at most two padding characters. */
  lemma {:induction false} PaddingIsATail(bytes: seq<Byte>)
    ensures Base64(bytes) == Unpadded(bytes) + Fill(PadCount(|bytes|))
    decreases |bytes|
  {
    hide Symbol, Split;
    if |bytes| > 2 {
      PaddingIsATail(bytes[3..]);
    }
  }

  lemma DecodeFour(p: Sextet, q: Sextet, r: Sextet, s: Sextet, rest: string)
    ensures var (a, b, c) := Join(p, q, r, s);
            DecodeBase64([Symbol(p), Symbol(q), Symbol(r), Symbol(s)] + rest)
            == if DecodeBase64(rest).None? then None else Some([a, b, c] + DecodeBase64(rest).value)
    ensures DecodeBase64([Symbol(p), Symbol(q), '=', '=']) == Some([Join(p, q, 0, 0).0])
    ensures DecodeBase64([Symbol(p), Symbol(q), Symbol(r), '=']) == Some([Join(p, q, r, 0).0, Join(p, q, r, 0).1])
  {
    hide Symbol, Value, Join;
    ValueOfSymbol(p);
    ValueOfSymbol(q);
    ValueOfSymbol(r);
    ValueOfSymbol(s);
    var four := [Symbol(p), Symbol(q), Symbol(r), Symbol(s)];
    assert (four + rest)[4..] == rest;
    assert (four + rest)[2] == Symbol(r) && (four + rest)[2..][0] == Symbol(r);
    assert (four + rest)[3..][0] == Symbol(s);
    assert [Symbol(p), Symbol(q), '=', '='][2..] == "==";
    assert [Symbol(p), Symbol(q), Symbol(r), '='][2..][0] == Symbol(r);
    assert [Symbol(p), Symbol(q), Symbol(r), '='][3..] == "=";
  }

  lemma {:induction false} DecodeInvertsBase64(bytes: seq<Byte>)
    ensures DecodeBase64(Base64(bytes)) == Some(bytes)
    decreases |bytes|
  {
    hide Symbol, Value, Join, Split, DecodeBase64;
    DecodeNothing();
    if bytes != [] {
      var b1, b2 := if |bytes| > 1 then bytes[1] else 0, if |bytes| > 2 then bytes[2] else 0;
      var (p, q, r, s) := Split(bytes[0], b1, b2);
      JoinOfSplit(bytes[0], b1, b2);
      DecodeFour(p, q, r, s, if |bytes| > 2 then Base64(bytes[3..]) else "");
      ZeroTail(bytes[0], b1);
      if |bytes| > 2 {
        DecodeInvertsBase64(bytes[3..]);
        assert bytes == [bytes[0], bytes[1], bytes[2]] + bytes[3..];
        assert Base64(bytes) == [Symbol(p), Symbol(q), Symbol(r), Symbol(s)] + Base64(bytes[3..]);
      } else if |bytes| == 2 {
        assert bytes == [bytes[0], bytes[1]];
        assert Base64(bytes) == [Symbol(p), Symbol(q), Symbol(r), '='];
      } else {
        assert bytes == [bytes[0]];
        assert Base64(bytes) == [Symbol(p), Symbol(q), '=', '='];
      }
    }
  }

  lemma DecodeNothing()
    ensures DecodeBase64("") == Some([])
  {
  }

  /** Missing bytes are zero bits, which the padded groups leave out. */
  lemma ZeroTail(a: Byte, b: Byte)
    ensures Split(a, 0, 0).2 == 0 && Split(a, 0, 0).3 == 0 && Split(a, b, 0).3 == 0
  {
  }

  lemma {:induction false} DropFill(s: string, n: nat)
    requires s == [] || s[|s| - 1] != '='
    ensures DropPadding(s + Fill(n)) == s
    decreases n
  {
    if n == 0 {
      assert s + Fill(0) == s;
    } else {
      assert (s + Fill(n))[..|s| + n - 1] == s + Fill(n - 1);
      DropFill(s, n - 1);
    }
  }

  function UrlSafe(s: string): string {
    ReplaceAll(ReplaceAll(s, '+', '-'), '/', '_')
  }

  /** Table 2 of RFC 4648. */
  predicate UrlSafeSymbol(c: char) {
    'A' <= c <= 'Z' || 'a' <= c <= 'z' || '0' <= c <= '9' || c == '-' || c == '_'
  }

  /** The code is the unpadded base64 text in the URL-safe alphabet. */
  lemma CodeIsUrlSafeBase64(payload: seq<Byte>)
    ensures EncodeSetupCode(payload) == UrlSafe(Unpadded(payload))
  {
    var u := Unpadded(payload);
    var n := PadCount(|payload|);
    PaddingIsATail(payload);
    assert UrlSafe(u + Fill(n)) == UrlSafe(u) + Fill(n);
    UnpaddedIsStandard(payload);
    SafeSymbols(u);
    DropFill(UrlSafe(u), n);
  }

  /** The two exchanges are undone by their inverses, and produce no padding character. */
  lemma SafeSymbols(u: string)
    requires Standard(u)
    ensures ReplaceAll(ReplaceAll(UrlSafe(u), '-', '+'), '_', '/') == u
    ensures forall i :: 0 <= i < |u| ==> UrlSafeSymbol(UrlSafe(u)[i])
  {
    assert forall i :: 0 <= i < |u| ==> Value(u[i]).Some?;
  }

  /** Decoding a setup code gives the payload back, for every byte string. */
  lemma RoundTrip(payload: seq<Byte>)
    ensures DecodeSetupCode(EncodeSetupCode(payload)) == Some(payload)
  {
    hide DecodeBase64, Base64, Unpadded, EncodeSetupCode, UrlSafe, ReplaceAll;
    var u := Unpadded(payload);
    CodeIsUrlSafeBase64(payload);
    UnpaddedIsStandard(payload);
    SafeSymbols(u);
    UnpaddedLength(payload);
    PaddingIsATail(payload);
    assert Pad(u) == u + Fill(PadCount(|payload|));
    DecodeInvertsBase64(payload);
  }

  /** Distinct payloads give distinct codes. */
  lemma Injective(a: seq<Byte>, b: seq<Byte>)
    ensures EncodeSetupCode(a) == EncodeSetupCode(b) <==> a == b
  {
    RoundTrip(a);
    RoundTrip(b);
  }

  /** The code uses the URL-safe alphabet only and takes ceil(4n/3) characters. */
  lemma AlphabetAndLength(payload: seq<Byte>)
    ensures var code := EncodeSetupCode(payload);
            && 4 * |payload| <= 3 * |code| < 4 * |payload| + 3
            && forall i :: 0 <= i < |code| ==> UrlSafeSymbol(code[i])
  {
    CodeIsUrlSafeBase64(payload);
    UnpaddedIsStandard(payload);
    UnpaddedLength(payload);
    SafeSymbols(Unpadded(payload));
  }

  /** The pieces of Table 1, and the big-endian order in which section 4 of RFC 4648 reads the 24 bits of a group. */
  lemma AlphabetIsTable1()
    ensures Symbol(0) == 'A' && Symbol(25) == 'Z' && Symbol(26) == 'a' && Symbol(51) == 'z'
    ensures Symbol(52) == '0' && Symbol(61) == '9' && Symbol(62) == '+' && Symbol(63) == '/'
    ensures forall v: int :: 0 <= v < 63 && v !in {25, 51, 61, 62} ==> Symbol(v + 1) as int == Symbol(v) as int + 1
  {
  }

  lemma GroupIsBigEndian(a: Byte, b: Byte, c: Byte)
    ensures var (p, q, r, s) := Split(a, b, c);
            p * 0x40000 + q * 0x1000 + r * 0x40 + s == a * 0x10000 + b * 0x100 + c
  {
    var x, y, u, v, w, t := a / 4, a % 4, b / 16, b % 16, c / 64, c % 64;
    assert a == 4 * x + y && b == 16 * u + v && c == 64 * w + t;
  }
}
