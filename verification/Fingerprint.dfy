/**
Fingerprints of key material. The same 32 bytes reach the commands raw, in base16 or in base64, and
an operator compares the digests; they have to agree whichever form each command was given.
*/
module Fingerprint {
  import opened Options
  import opened Encodings
  import Chars = Text

  /** A byte string read as text. */
  function Text(v: Bytes): (s: string)
    ensures |s| == |v| && forall i :: 0 <= i < |v| ==> s[i] == v[i] as char
  {
    seq(|v|, i requires 0 <= i < |v| => v[i] as char)
  }

  predicate Ascii(s: string) {
    forall i :: 0 <= i < |s| ==> s[i] < 128 as char
  }

  function Spell(s: string): (v: Bytes)
    requires Ascii(s)
    ensures |v| == |s| && forall i :: 0 <= i < |s| ==> v[i] == s[i] as nat
  {
    seq(|s|, i requires 0 <= i < |s| => s[i] as nat)
  }

  // ----- surrounding white space -----

  predicate AsciiSpace(b: Byte) {
    9 <= b <= 13 || b == 32
  }

  /** The UTF-8 encodings of the space characters outside ASCII. */
  predicate WideSpace(v: Bytes) {
    || v == [0xC2, 0x85] || v == [0xC2, 0xA0] || v == [0xE1, 0x9A, 0x80]
    || (|v| == 3 && v[0] == 0xE2 && v[1] == 0x80 && (0x80 <= v[2] <= 0x8A || v[2] in {0xA8, 0xA9, 0xAF}))
    || v == [0xE2, 0x81, 0x9F] || v == [0xE3, 0x80, 0x80]
  }

  /** The UTF-8 form of a character that takes two or three bytes (section 3 of RFC 3629). */
  function Utf8(c: nat): Bytes
    requires 0x80 <= c < 0x1_0000
  {
    if c < 0x800 then [0xC0 + c / 64, 0x80 + c % 64]
    else [0xE0 + c / 4096, 0x80 + c / 64 % 64, 0x80 + c % 64]
  }

  /** The white space that takes several bytes is what counts as white space in text. */
  lemma WideSpaceIsSpace(c: nat)
    requires 0x80 <= c < 0xD800
    ensures WideSpace(Utf8(c)) <==> Chars.IsGoSpace(c as char)
  {
  }

  /** The length of the space character `v` begins with, zero when it begins with none. */
  function LeadingSpace(v: Bytes): (k: nat)
    ensures k <= |v|
  {
    if |v| > 0 && AsciiSpace(v[0]) then 1
    else if |v| >= 2 && WideSpace(v[..2]) then 2
    else if |v| >= 3 && WideSpace(v[..3]) then 3
    else 0
  }

  function TrailingSpace(v: Bytes): (k: nat)
    ensures k <= |v|
  {
    if |v| > 0 && AsciiSpace(v[|v| - 1]) then 1
    else if |v| >= 2 && WideSpace(v[|v| - 2..]) then 2
    else if |v| >= 3 && WideSpace(v[|v| - 3..]) then 3
    else 0
  }

  function TrimLeft(v: Bytes): (t: Bytes)
    ensures |t| <= |v|
    decreases |v|
  {
    if LeadingSpace(v) == 0 then v else TrimLeft(v[LeadingSpace(v)..])
  }

  function TrimRight(v: Bytes): (t: Bytes)
    ensures |t| <= |v|
    decreases |v|
  {
    if TrailingSpace(v) == 0 then v else TrimRight(v[..|v| - TrailingSpace(v)])
  }

  function TrimSpace(v: Bytes): (t: Bytes)
    ensures |t| <= |v|
  {
    TrimRight(TrimLeft(v))
  }

  /** One white space character: a byte of ASCII, or the two or three of a wider one. */
  predicate IsOneSpace(v: Bytes) {
    (|v| == 1 && AsciiSpace(v[0])) || WideSpace(v)
  }

  function Flat(cs: seq<Bytes>): Bytes {
    if cs == [] then [] else Flat(cs[..|cs| - 1]) + cs[|cs| - 1]
  }

  predicate AreSpaces(cs: seq<Bytes>) {
    forall i :: 0 <= i < |cs| ==> IsOneSpace(cs[i])
  }

  /** White space, of any number of characters. */
  ghost predicate AllSpaces(v: Bytes) {
    exists cs :: AreSpaces(cs) && v == Flat(cs)
  }

  lemma {:induction false} FlatCons(cs: seq<Bytes>)
    requires cs != []
    ensures Flat(cs) == cs[0] + Flat(cs[1..])
  {
    if |cs| == 1 {
      assert cs[..0] == [] && cs[1..] == [] && Flat([]) == [];
      assert Flat(cs) == [] + cs[0] == cs[0] + [];
    } else {
      var front := cs[..|cs| - 1];
      FlatCons(front);
      assert front[1..] == cs[1..][..|cs| - 2] && front[0] == cs[0];
    }
  }

  lemma OneSpaceLeads(v: Bytes, k: nat)
    requires k <= |v| && IsOneSpace(v[..k])
    ensures LeadingSpace(v) == k
  {
    var c := v[..k];
    assert c[0] == v[0];
    if k == 3 {
      assert v[..2] == c[..2] && v[..2][0] == c[0] != 0xC2;
    }
  }

  lemma OneSpaceTrails(v: Bytes, k: nat)
    requires k <= |v| && IsOneSpace(v[|v| - k..])
    ensures TrailingSpace(v) == k
  {
    var c := v[|v| - k..];
    assert c[k - 1] == v[|v| - 1];
    if k == 3 {
      assert v[|v| - 2..][0] == c[1] != 0xC2;
    }
  }

  /** A visible ASCII character: never white space nor part of a wider one. */
  predicate Visible(b: Byte) {
    33 <= b < 127
  }

  lemma {:induction false} TrimLeftOfSpaces(cs: seq<Bytes>, v: Bytes)
    requires AreSpaces(cs) && v != [] && Visible(v[0])
    ensures TrimLeft(Flat(cs) + v) == v
    decreases |cs|
  {
    if cs == [] {
      assert Flat(cs) + v == v;
      assert LeadingSpace(v) == 0;
    } else {
      var c, rest := cs[0], Flat(cs[1..]) + v;
      FlatCons(cs);
      assert Flat(cs) + v == c + rest;
      assert (c + rest)[..|c|] == c && (c + rest)[|c|..] == rest;
      OneSpaceLeads(c + rest, |c|);
      TrimLeftOfSpaces(cs[1..], v);
    }
  }

  lemma {:induction false} TrimRightOfSpaces(v: Bytes, cs: seq<Bytes>)
    requires AreSpaces(cs) && v != [] && Visible(v[|v| - 1])
    ensures TrimRight(v + Flat(cs)) == v
    decreases |cs|
  {
    if cs == [] {
      assert v + Flat(cs) == v;
      assert TrailingSpace(v) == 0;
    } else {
      var c, front := cs[|cs| - 1], v + Flat(cs[..|cs| - 1]);
      var u := front + c;
      assert v + Flat(cs) == u;
      assert u[|u| - |c|..] == c && u[..|u| - |c|] == front;
      OneSpaceTrails(u, |c|);
      TrimRightOfSpaces(v, cs[..|cs| - 1]);
    }
  }

  lemma TrimOfPadded(pre: Bytes, v: Bytes, post: Bytes)
    requires AllSpaces(pre) && AllSpaces(post)
    requires v != [] && Visible(v[0]) && Visible(v[|v| - 1])
    ensures TrimSpace(pre + v + post) == v
  {
    var before :| AreSpaces(before) && pre == Flat(before);
    var behind :| AreSpaces(behind) && post == Flat(behind);
    assert pre + v + post == pre + (v + post);
    TrimLeftOfSpaces(before, v + post);
    TrimRightOfSpaces(v, behind);
  }

  lemma NoSpaces()
    ensures AllSpaces([])
  {
    assert AreSpaces([]) && Flat([]) == [];
  }

  // ----- which bytes are digested -----

  /** Base64 first, then base16, and whatever is neither as it stands, untrimmed. */
  function KeyMaterial(v: Bytes): Bytes {
    var k := DecodedKey(Text(TrimSpace(v)));
    if k.Some? then k.value else v
  }

  function DecodedKey(t: string): Option<Bytes> {
    var b64, hex := B64Decode(t), HexDecode(t);
    if b64.Some? && |b64.value| == KEY_LENGTH then b64
    else if hex.Some? && |hex.value| == KEY_LENGTH then hex
    else None
  }

  /** The printed fingerprint, for any digest. */
  function KeyFingerprint(digest: Bytes -> string, v: Bytes): string {
    digest(KeyMaterial(v))
  }

  // ----- no form is decoded by an earlier branch than its own -----

  /** At most 32 bytes of text are too short to decode to 32 bytes either way. */
  lemma RawIsTaken(key: Bytes)
    requires |key| == KEY_LENGTH
    ensures KeyMaterial(key) == key
  {
    ShortTextIsNoKey(Text(TrimSpace(key)));
  }

  lemma ShortTextIsNoKey(t: string)
    requires |t| <= KEY_LENGTH
    ensures DecodedKey(t) == None
  {
  }

  lemma {:induction false} HexCharacters(s: string)
    requires HexDecode(s).Some?
    ensures forall i :: 0 <= i < |s| ==> HexValue(s[i]).Some?
  {
    if s != "" {
      HexCharacters(s[2..]);
      forall i | 0 <= i < |s| ensures HexValue(s[i]).Some? {
        if i >= 2 {
          assert s[i] == s[2..][i - 2];
        }
      }
    }
  }

  /** Sixty-four base16 digits are also good base64, but for 48 bytes. */
  lemma HexIsNotBase64OfAKey(s: string)
    requires HexDecode(s).Some? && |HexDecode(s).value| == KEY_LENGTH
    ensures B64Decode(s).Some? ==> |B64Decode(s).value| == 48
  {
    HexCharacters(s);
    NoBreaksToDrop(s);
    if B64Decode(s).Some? {
      UnpaddedLength(s);
    }
  }

  /** Every base16 spelling of a key, in either case and with white space around it. */
  lemma HexIsTaken(key: Bytes, s: string, pre: Bytes, post: Bytes)
    requires |key| == KEY_LENGTH && HexDecode(s) == Some(key)
    requires AllSpaces(pre) && AllSpaces(post)
    ensures Ascii(s) && KeyMaterial(pre + Spell(s) + post) == key
  {
    HexIsVisible(s);
    TrimOfPadded(pre, Spell(s), post);
    TrimmedHexIsTaken(pre + Spell(s) + post, s, key);
  }

  lemma HexIsVisible(s: string)
    requires HexDecode(s).Some?
    ensures Ascii(s) && forall i :: 0 <= i < |s| ==> Visible(Spell(s)[i])
  {
    HexCharacters(s);
  }

  lemma TrimmedHexIsTaken(v: Bytes, s: string, key: Bytes)
    requires |key| == KEY_LENGTH && HexDecode(s) == Some(key)
    requires Ascii(s) && TrimSpace(v) == Spell(s)
    ensures KeyMaterial(v) == key
  {
    assert Text(Spell(s)) == s;
    HexIsNotBase64OfAKey(s);
  }

  lemma DecodableIsAscii(s: string)
    requires B64Decode(s).Some?
    ensures Ascii(s) && forall i :: 0 <= i < |s| ==> Visible(s[i] as nat) || s[i] == '\r' || s[i] == '\n'
  {
    QuantaUseTheAlphabet(DropBreaks(s));
    forall i | 0 <= i < |s|
      ensures s[i] == '\r' || s[i] == '\n' || B64Value(s[i]).Some? || s[i] == '='
    {
      KeptByDrop(s, i);
    }
  }

  lemma {:induction false} KeptByDrop(s: string, i: nat)
    requires i < |s|
    ensures s[i] == '\r' || s[i] == '\n' || s[i] in DropBreaks(s)
  {
    if i > 0 {
      KeptByDrop(s[1..], i - 1);
    }
  }

  predicate LineText(v: Bytes) {
    forall i :: 0 <= i < |v| ==> Visible(v[i]) || v[i] == 13 || v[i] == 10
  }

  /** Trimming such a text removes line breaks only, which the decoder skips anyway. */
  lemma {:induction false} TrimLeftKeepsText(v: Bytes)
    requires LineText(v)
    ensures LineText(TrimLeft(v)) && DropBreaks(Text(TrimLeft(v))) == DropBreaks(Text(v))
    decreases |v|
  {
    if LeadingSpace(v) != 0 {
      assert LeadingSpace(v) == 1;
      TrimLeftKeepsText(v[1..]);
      assert Text(v)[1..] == Text(v[1..]);
    }
  }

  lemma {:induction false} TrimRightKeepsText(v: Bytes)
    requires LineText(v)
    ensures DropBreaks(Text(TrimRight(v))) == DropBreaks(Text(v))
    decreases |v|
  {
    if TrailingSpace(v) != 0 {
      TrailingBreak(v);
      TrimRightKeepsText(v[..|v| - 1]);
    }
  }

  lemma TrailingBreak(v: Bytes)
    requires LineText(v) && TrailingSpace(v) != 0
    ensures TrailingSpace(v) == 1
    ensures DropBreaks(Text(v[..|v| - 1])) == DropBreaks(Text(v))
  {
    var n := |v| - 1;
    BreakIsOneByte(v);
    assert Text(v) == Text(v[..n]) + [Text(v)[n]];
    BreakIsDropped(Text(v[..n]), Text(v)[n]);
  }

  lemma BreakIsOneByte(v: Bytes)
    requires LineText(v) && TrailingSpace(v) != 0
    ensures TrailingSpace(v) == 1 && (v[|v| - 1] == 13 || v[|v| - 1] == 10)
  {
  }

  lemma BreakIsDropped(s: string, c: char)
    requires c == '\r' || c == '\n'
    ensures DropBreaks(s + [c]) == DropBreaks(s)
  {
    DropBreaksConcat(s, [c]);
    assert DropBreaks([c][1..]) == "";
  }

  /** Every base64 text of a key, broken into lines or not. */
  lemma Base64IsTaken(key: Bytes, s: string)
    requires |key| == KEY_LENGTH && B64Decode(s) == Some(key)
    ensures Ascii(s) && KeyMaterial(Spell(s)) == key
  {
    DecodableIsAscii(s);
    var v := Spell(s);
    assert Text(v) == s;
    TrimLeftKeepsText(v);
    TrimRightKeepsText(TrimLeft(v));
  }

  lemma PaddedBase64IsTaken(key: Bytes, s: string, pre: Bytes, post: Bytes)
    requires |key| == KEY_LENGTH && AllSpaces(pre) && AllSpaces(post)
    requires B64Decode(s) == Some(key) && Ascii(s)
    requires forall i :: 0 <= i < |s| ==> Visible(s[i] as nat)
    ensures KeyMaterial(pre + Spell(s) + post) == key
  {
    var v := Spell(s);
    assert |s| * 3 >= 128;
    assert Visible(v[0]) && Visible(v[|v| - 1]);
    TrimOfPadded(pre, v, post);
    DecodedIsTaken(pre + v + post, s, key);
  }

  lemma DecodedIsTaken(v: Bytes, s: string, key: Bytes)
    requires |key| == KEY_LENGTH && B64Decode(s) == Some(key)
    requires Ascii(s) && TrimSpace(v) == Spell(s)
    ensures KeyMaterial(v) == key
  {
    assert Text(Spell(s)) == s;
  }

  lemma EncodedIsVisible(key: Bytes)
    ensures Ascii(B64Encode(key))
    ensures forall i :: 0 <= i < |B64Encode(key)| ==> Visible(B64Encode(key)[i] as nat)
  {
    B64EncodeShape(key);
  }

  /** One key, one digest: raw, base16 and base64, the encoded forms with any white space around them. */
  lemma OneKeyOneDigest(digest: Bytes -> string, key: Bytes, pre: Bytes, post: Bytes)
    requires |key| == KEY_LENGTH && AllSpaces(pre) && AllSpaces(post)
    ensures Ascii(HexEncode(key)) && Ascii(B64Encode(key))
    ensures KeyFingerprint(digest, key) == digest(key)
    ensures KeyFingerprint(digest, pre + Spell(HexEncode(key)) + post) == digest(key)
    ensures KeyFingerprint(digest, pre + Spell(B64Encode(key)) + post) == digest(key)
  {
    RawIsTaken(key);
    HexRoundTrip(key);
    HexIsTaken(key, HexEncode(key), pre, post);
    B64RoundTrip(key);
    EncodedIsVisible(key);
    PaddedBase64IsTaken(key, B64Encode(key), pre, post);
  }

  /** Two keys in any of the forms have one fingerprint exactly when their digests agree, so no pair of
      forms confuses two keys the digest tells apart. */
  lemma ComparisonIsMeaningful(digest: Bytes -> string, k1: Bytes, k2: Bytes, v1: Bytes, v2: Bytes)
    requires IsFormOf(v1, k1) && IsFormOf(v2, k2)
    ensures KeyFingerprint(digest, v1) == KeyFingerprint(digest, v2) <==> digest(k1) == digest(k2)
  {
    FormIsTaken(v1, k1);
    FormIsTaken(v2, k2);
  }

  /** The raw bytes, any base16 spelling, or any base64 spelling. */
  predicate IsFormOf(v: Bytes, key: Bytes) {
    && |key| == KEY_LENGTH
    && (|| v == key
        || HexDecode(Text(v)) == Some(key)
        || B64Decode(Text(v)) == Some(key))
  }

  lemma FormIsTaken(v: Bytes, key: Bytes)
    requires IsFormOf(v, key)
    ensures KeyMaterial(v) == key
  {
    var s := Text(v);
    if v == key {
      RawIsTaken(key);
    } else if HexDecode(s) == Some(key) {
      BareHexIsTaken(key, s);
      assert Spell(s) == v;
    } else {
      Base64IsTaken(key, s);
      assert Spell(s) == v;
    }
  }

  /** The rotation reads the live key in base64 and escrows it in base16. */
  function DecodeKeyToHex(b64: string): (r: Option<string>)
    ensures r.Some? ==> HexDecode(r.value) == B64Decode(b64)
    ensures r.Some? <==> B64Decode(b64).Some? && |B64Decode(b64).value| == KEY_LENGTH
  {
    var raw := B64Decode(b64);
    if raw.None? || |raw.value| != KEY_LENGTH then None
    else
      HexRoundTrip(raw.value);
      Some(HexEncode(raw.value))
  }

  /** What is escrowed has the fingerprint of what is live, for every text the decoder accepts; and the
      rendered base64 of a key always comes back as that key. */
  lemma EscrowedKeyKeepsItsFingerprint(digest: Bytes -> string, b64: string)
    requires DecodeKeyToHex(b64).Some?
    ensures Ascii(b64) && Ascii(DecodeKeyToHex(b64).value)
    ensures KeyFingerprint(digest, Spell(DecodeKeyToHex(b64).value)) == KeyFingerprint(digest, Spell(b64))
  {
    var key := B64Decode(b64).value;
    Base64IsTaken(key, b64);
    BareHexIsTaken(key, DecodeKeyToHex(b64).value);
  }

  lemma BareHexIsTaken(key: Bytes, s: string)
    requires |key| == KEY_LENGTH && HexDecode(s) == Some(key)
    ensures Ascii(s) && KeyMaterial(Spell(s)) == key
  {
    HexIsVisible(s);
    var v := Spell(s);
    NoSpaces();
    TrimOfPadded([], v, []);
    assert [] + v + [] == v;
    TrimmedHexIsTaken(v, s, key);
  }

  lemma RenderedKeyComesBack(key: Bytes)
    ensures DecodeKeyToHex(B64Encode(key)) == (if |key| == KEY_LENGTH then Some(HexEncode(key)) else None)
  {
    B64RoundTrip(key);
  }
}
