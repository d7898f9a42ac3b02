/**
The two encodings a 32-byte key travels in: base16 (section 8 of RFC 4648) and base64 with padding
(section 4 of RFC 4648), as Go's `hex` and `base64.StdEncoding` encode and decode them.
*/
module Encodings {
  import opened Options

  type Byte = b: nat | b < 256

  type Bytes = seq<Byte>

  /** The length of a secretbox key. */
  const KEY_LENGTH := 32

  // ----- base16 -----

  function HexDigit(n: nat): (c: char)
    requires n < 16
  {
    if n < 10 then '0' + n as char else 'a' + (n - 10) as char
  }

  /** Either case is accepted. */
  function HexValue(c: char): Option<nat> {
    if '0' <= c <= '9' then Some((c - '0') as nat)
    else if 'a' <= c <= 'f' then Some((c - 'a') as nat + 10)
    else if 'A' <= c <= 'F' then Some((c - 'A') as nat + 10)
    else None
  }

  function HexEncode(b: Bytes): (s: string)
    ensures |s| == 2 * |b|
  {
    if b == [] then "" else [HexDigit(b[0] / 16), HexDigit(b[0] % 16)] + HexEncode(b[1..])
  }

  function HexDecode(s: string): (r: Option<Bytes>)
    ensures r.Some? ==> |s| == 2 * |r.value|
  {
    if s == "" then Some([])
    else if |s| < 2 || HexValue(s[0]).None? || HexValue(s[1]).None? then None
    else
      var rest := HexDecode(s[2..]);
      if rest.None? then None
      else Some([HexValue(s[0]).value * 16 + HexValue(s[1]).value] + rest.value)
  }

  lemma HexDigitRoundTrip(n: nat)
    requires n < 16
    ensures HexValue(HexDigit(n)) == Some(n)
  {
  }

  lemma {:induction false} HexRoundTrip(b: Bytes)
    ensures HexDecode(HexEncode(b)) == Some(b)
  {
    if b != [] {
      HexRoundTrip(b[1..]);
      HexDigitRoundTrip(b[0] / 16);
      HexDigitRoundTrip(b[0] % 16);
      assert HexEncode(b)[2..] == HexEncode(b[1..]);
      assert b == [b[0]] + b[1..];
    }
  }

  // ----- base64 -----

  function B64Char(n: nat): (c: char)
    requires n < 64
  {
    if n < 26 then 'A' + n as char
    else if n < 52 then 'a' + (n - 26) as char
    else if n < 62 then '0' + (n - 52) as char
    else if n == 62 then '+' else '/'
  }

  function B64Value(c: char): Option<nat> {
    if 'A' <= c <= 'Z' then Some((c - 'A') as nat)
    else if 'a' <= c <= 'z' then Some((c - 'a') as nat + 26)
    else if '0' <= c <= '9' then Some((c - '0') as nat + 52)
    else if c == '+' then Some(62)
    else if c == '/' then Some(63)
    else None
  }

  /** Three bytes as four characters. */
  function Quad(a: Byte, b: Byte, c: Byte): (q: string)
    ensures |q| == 4
  {
    Sextets(a, b, c);
    [B64Char(a / 4), B64Char(a % 4 * 16 + b / 16), B64Char(b % 16 * 4 + c / 64), B64Char(c % 64)]
  }

  lemma Sextets(a: Byte, b: Byte, c: Byte)
    ensures a / 4 < 64 && a % 4 * 16 + b / 16 < 64 && b % 16 * 4 + c / 64 < 64 && c % 64 < 64
  {
  }

  function B64Encode(b: Bytes): (s: string)
    ensures |s| == (|b| + 2) / 3 * 4
  {
    if b == [] then ""
    else if |b| == 1 then Quad(b[0], 0, 0)[..2] + "=="
    else if |b| == 2 then Quad(b[0], b[1], 0)[..3] + "="
    else Quad(b[0], b[1], b[2]) + B64Encode(b[3..])
  }

  /** The decoder skips line breaks wherever they stand. */
  function DropBreaks(s: string): (t: string)
    ensures |t| <= |s|
  {
    if s == "" then ""
    else if s[0] == '\r' || s[0] == '\n' then DropBreaks(s[1..])
    else [s[0]] + DropBreaks(s[1..])
  }

  /** Four characters, the last two possibly padding, as three bytes. */
  function Triple(s: string): (t: Option<(Byte, Byte, Byte)>)
    requires |s| == 4
  {
    var v := (c: char) => if c == '=' then Some(0) else B64Value(c);
    var a, b, c, d := B64Value(s[0]), B64Value(s[1]), v(s[2]), v(s[3]);
    if a.None? || b.None? || c.None? || d.None? || (s[2] == '=' && s[3] != '=') then None
    else Some((a.value * 4 + b.value / 16, b.value % 16 * 16 + c.value / 4, c.value % 4 * 64 + d.value))
  }

  /** Quanta of four; padding only in the last, and nothing after it. */
  function B64Quanta(s: string): (r: Option<Bytes>)
    ensures r.Some? ==> |r.value| * 4 <= |s| * 3
  {
    if s == "" then Some([])
    else if |s| < 4 || Triple(s[..4]).None? then None
    else
      var t := Triple(s[..4]).value;
      if s[3] == '=' then
        if |s| > 4 then None
        else if s[2] == '=' then Some([t.0])
        else Some([t.0, t.1])
      else
        var rest := B64Quanta(s[4..]);
        if rest.None? then None else Some([t.0, t.1, t.2] + rest.value)
  }

  lemma {:induction false} UnpaddedLength(s: string)
    requires B64Quanta(s).Some? && forall i :: 0 <= i < |s| ==> s[i] != '='
    ensures |B64Quanta(s).value| * 4 == |s| * 3
  {
    if s != "" {
      UnpaddedLength(s[4..]);
    }
  }

  function B64Decode(s: string): (r: Option<Bytes>)
    ensures r.Some? ==> |r.value| * 4 <= |s| * 3
  {
    B64Quanta(DropBreaks(s))
  }

  lemma B64CharRoundTrip(n: nat)
    requires n < 64
    ensures B64Value(B64Char(n)) == Some(n)
    ensures B64Char(n) != '=' && B64Char(n) != '\r' && B64Char(n) != '\n'
  {
  }

  lemma {:induction false} NoBreaksToDrop(s: string)
    requires forall i :: 0 <= i < |s| ==> s[i] != '\r' && s[i] != '\n'
    ensures DropBreaks(s) == s
  {
    if s != "" {
      NoBreaksToDrop(s[1..]);
      assert s == [s[0]] + s[1..];
    }
  }

  predicate B64Alphabet(s: string) {
    forall i :: 0 <= i < |s| ==> B64Value(s[i]).Some? || s[i] == '='
  }

  /** One quantum at a time: what the encoder writes for three bytes reads back as those bytes. */
  lemma QuadRoundTrip(a: Byte, b: Byte, c: Byte)
    ensures Triple(Quad(a, b, c)) == Some((a, b, c))
    ensures forall i :: 0 <= i < 4 ==> B64Value(Quad(a, b, c)[i]).Some?
  {
    QuadValues(a, b, c);
    Regroup(a, b, c);
  }

  /** The four sextets are what the four characters stand for. */
  lemma QuadValues(a: Byte, b: Byte, c: Byte)
    ensures var q := Quad(a, b, c);
      && B64Value(q[0]) == Some(a / 4) && B64Value(q[1]) == Some(a % 4 * 16 + b / 16)
      && B64Value(q[2]) == Some(b % 16 * 4 + c / 64) && B64Value(q[3]) == Some(c % 64)
      && q[2] != '=' && q[3] != '='
  {
    Sextets(a, b, c);
    B64CharRoundTrip(a / 4);
    B64CharRoundTrip(a % 4 * 16 + b / 16);
    B64CharRoundTrip(b % 16 * 4 + c / 64);
    B64CharRoundTrip(c % 64);
  }

  /** Four sextets regroup into the three bytes they were cut from. */
  lemma Regroup(a: Byte, b: Byte, c: Byte)
    ensures a / 4 * 4 + (a % 4 * 16 + b / 16) / 16 == a
    ensures (a % 4 * 16 + b / 16) % 16 * 16 + (b % 16 * 4 + c / 64) / 4 == b
    ensures (b % 16 * 4 + c / 64) % 4 * 64 + c % 64 == c
  {
    assert (a % 4 * 16 + b / 16) / 16 == a % 4 && (a % 4 * 16 + b / 16) % 16 == b / 16;
    assert (b % 16 * 4 + c / 64) / 4 == b % 16 && (b % 16 * 4 + c / 64) % 4 == c / 64;
  }

  /** Padding reads as zero bits, which is what the encoder filled the last quantum with. */
  lemma PaddedOnce(a: Byte, b: Byte)
    ensures Triple(Quad(a, b, 0)[..3] + "=") == Some((a, b, 0))
  {
    QuadRoundTrip(a, b, 0);
    QuadValues(a, b, 0);
    var q := Quad(a, b, 0);
    var s := q[..3] + "=";
    assert s[0] == q[0] && s[1] == q[1] && s[2] == q[2] && s[3] == '=';
  }

  lemma PaddedTwice(a: Byte)
    ensures Triple(Quad(a, 0, 0)[..2] + "==") == Some((a, 0, 0))
  {
    QuadRoundTrip(a, 0, 0);
    QuadValues(a, 0, 0);
    var q := Quad(a, 0, 0);
    var s := q[..2] + "==";
    assert s[0] == q[0] && s[1] == q[1] && s[2] == '=' && s[3] == '=';
  }

  lemma {:induction false} B64EncodeShape(b: Bytes)
    ensures B64Alphabet(B64Encode(b))
    ensures b != [] ==> B64Value(B64Encode(b)[0]).Some?
  {
    if 0 < |b| {
      QuadRoundTrip(b[0], if |b| > 1 then b[1] else 0, if |b| > 2 then b[2] else 0);
      if |b| > 2 {
        B64EncodeShape(b[3..]);
      }
    }
  }

  lemma {:induction false} QuantaRoundTrip(b: Bytes)
    ensures B64Quanta(B64Encode(b)) == Some(b)
  {
    if |b| == 1 || |b| == 2 {
      ShortRoundTrip(b);
    } else if |b| > 2 {
      QuantaRoundTripStep(b);
      QuantaRoundTrip(b[3..]);
      assert b == [b[0], b[1], b[2]] + b[3..];
    }
  }

  lemma ShortRoundTrip(b: Bytes)
    requires |b| == 1 || |b| == 2
    ensures B64Quanta(B64Encode(b)) == Some(b)
  {
    var s := B64Encode(b);
    assert s[..4] == s;
    if |b| == 1 {
      PaddedTwice(b[0]);
      assert s[2] == '=' && s[3] == '=';
      assert b == [b[0]];
    } else {
      PaddedOnce(b[0], b[1]);
      QuadRoundTrip(b[0], b[1], 0);
      assert s[2] == Quad(b[0], b[1], 0)[2] && s[3] == '=';
      assert b == [b[0], b[1]];
    }
  }

  lemma QuantaRoundTripStep(b: Bytes)
    requires |b| > 2
    ensures B64Encode(b)[..4] == Quad(b[0], b[1], b[2])
    ensures B64Encode(b)[4..] == B64Encode(b[3..])
    ensures Triple(B64Encode(b)[..4]) == Some((b[0], b[1], b[2])) && B64Encode(b)[3] != '='
  {
    QuadRoundTrip(b[0], b[1], b[2]);
    assert B64Encode(b)[3] == Quad(b[0], b[1], b[2])[3];
  }

  /** Base16 is read in either case. */
  lemma EitherCase(i: nat)
    requires i < 6
    ensures HexValue('a' + i as char) == Some(10 + i) && HexValue('A' + i as char) == Some(10 + i)
  {
  }

  /** Three of the test vectors of section 10 of RFC 4648: "f", "fo" and "foo". */
  lemma KnownTexts()
    ensures HexEncode([0x66]) == "66" && HexEncode([0x6f]) == "6f"
    ensures B64Encode([0x66]) == "Zg==" && B64Encode([0x66, 0x6f]) == "Zm8=" && B64Encode([0x66, 0x6f, 0x6f]) == "Zm9v"
  {
    assert [0x66][1..] == [] && [0x6f][1..] == [];
    assert HexEncode([]) == "";
    var b: Bytes := [0x66, 0x6f, 0x6f];
    assert b[3..] == [] && B64Encode([]) == "";
  }

  lemma B64RoundTrip(b: Bytes)
    ensures B64Decode(B64Encode(b)) == Some(b)
  {
    B64EncodeShape(b);
    NoBreaksToDrop(B64Encode(b));
    QuantaRoundTrip(b);
  }

  lemma {:induction false} QuantaUseTheAlphabet(s: string)
    requires B64Quanta(s).Some?
    ensures B64Alphabet(s)
  {
    if |s| > 4 {
      QuantaUseTheAlphabet(s[4..]);
      assert s == s[..4] + s[4..];
    }
  }

  lemma {:induction false} DropBreaksConcat(s: string, t: string)
    ensures DropBreaks(s + t) == DropBreaks(s) + DropBreaks(t)
  {
    if s == "" {
      assert s + t == t;
    } else {
      DropBreaksConcat(s[1..], t);
      assert (s + t)[1..] == s[1..] + t;
      ConcatAssociates([s[0]], DropBreaks(s[1..]), DropBreaks(t));
    }
  }

  lemma ConcatAssociates(a: string, b: string, c: string)
    ensures (a + b) + c == a + (b + c)
  {
  }
}
