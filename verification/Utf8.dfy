/** UTF-8 as Rust's `String` uses it: section 3 of RFC 3629, strict. */
module Utf8 {
  import opened Wrappers

  function EncodeChar(c: char): (b: seq<byte>)
    ensures 1 <= |b| <= 4
  {
    var x := c as int;
    if x < 0x80 then [x]
    else if x < 0x800 then [0xC0 + x / 64, 0x80 + x % 64]
    else if x < 0x1_0000 then [0xE0 + x / 4096, 0x80 + x / 64 % 64, 0x80 + x % 64]
    else [0xF0 + x / 0x4_0000, 0x80 + x / 4096 % 64, 0x80 + x / 64 % 64, 0x80 + x % 64]
  }

  function Encode(s: string): seq<byte> {
    if s == "" then [] else EncodeChar(s[0]) + Encode(s[1..])
  }

  predicate IsTail(b: byte) {
    0x80 <= b < 0xC0
  }

  /** The second byte a lead byte of a longer form admits, which is what rules out
      overlong forms, surrogates and values past U+10FFFF. */
  predicate SecondFits(lead: byte, second: byte) {
    if lead == 0xE0 then 0xA0 <= second < 0xC0
    else if lead == 0xED then 0x80 <= second < 0xA0
    else if lead == 0xF0 then 0x90 <= second < 0xC0
    else if lead == 0xF4 then 0x80 <= second < 0x90
    else IsTail(second)
  }

  /** Bytes the first character takes, or None when the text does not start with one. */
  function FirstLength(b: seq<byte>): (n: Option<nat>)
    ensures n.Some? ==> 1 <= n.value <= |b|
  {
    if b == [] then None
    else if b[0] < 0x80 then Some(1)
    else if 0xC2 <= b[0] < 0xE0 then
      if |b| >= 2 && IsTail(b[1]) then Some(2) else None
    else if 0xE0 <= b[0] < 0xF0 then
      if |b| >= 3 && SecondFits(b[0], b[1]) && IsTail(b[2]) then Some(3) else None
    else if 0xF0 <= b[0] < 0xF5 then
      if |b| >= 4 && SecondFits(b[0], b[1]) && IsTail(b[2]) && IsTail(b[3]) then Some(4) else None
    else None
  }

  /** The character whose encoding `b` starts with, from six bits a tail byte. */
  function FirstChar(b: seq<byte>): char
    requires FirstLength(b).Some?
  {
    var lead := b[0] as int;
    match FirstLength(b).value
    case 1 => lead as char
    case 2 => ((lead - 0xC0) * 64 + SixBits(b[1])) as char
    case 3 => ((lead - 0xE0) * 4096 + SixBits(b[1]) * 64 + SixBits(b[2])) as char
    case _ => ((lead - 0xF0) * 0x4_0000 + SixBits(b[1]) * 4096 + SixBits(b[2]) * 64 + SixBits(b[3])) as char
  }

  function SixBits(b: byte): int {
    b as int - 0x80
  }

  /** `String::from_utf8`. */
  function Decode(b: seq<byte>): Option<string> {
    if b == [] then Some("")
    else
      match FirstLength(b)
      case None => None
      case Some(n) =>
        match Decode(b[n..])
        case None => None
        case Some(rest) => Some([FirstChar(b)] + rest)
  }

  /** Length of the ill-formed prefix that one U+FFFD stands for: the longest start of
      a well-formed form, and at least one byte. */
  function BadLength(b: seq<byte>): (n: nat)
    requires b != [] && FirstLength(b).None?
    ensures 1 <= n <= |b|
  {
    if 0xE0 <= b[0] < 0xF5 && |b| >= 2 && SecondFits(b[0], b[1]) then
      if 0xF0 <= b[0] && |b| >= 3 && IsTail(b[2]) then 3 else 2
    else 1
  }

  /** `String::from_utf8_lossy`. */
  function DecodeLossy(b: seq<byte>): string {
    if b == [] then ""
    else
      match FirstLength(b)
      case Some(n) => [FirstChar(b)] + DecodeLossy(b[n..])
      case None => ['\U{FFFD}'] + DecodeLossy(b[BadLength(b)..])
  }

  /** Splitting a scalar value into groups of six bits loses nothing. */
  lemma Groups(x: nat)
    requires x < 0x11_0000
    ensures x == x / 64 * 64 + x % 64
    ensures x == x / 4096 * 4096 + x / 64 % 64 * 64 + x % 64
    ensures x == x / 0x4_0000 * 0x4_0000 + x / 4096 % 64 * 4096 + x / 64 % 64 * 64 + x % 64
    ensures 0 <= x / 0x4_0000 <= 4
    ensures x < 0x1_0000 ==> 0 <= x / 4096 < 16
    ensures x < 0x800 ==> 0 <= x / 64 < 32
  {
    assert x / 64 / 64 == x / 4096;
    assert x / 4096 / 64 == x / 0x4_0000;
  }

  lemma EncodeCharDecodes(c: char, rest: seq<byte>)
    ensures FirstLength(EncodeChar(c) + rest) == Some(|EncodeChar(c)|)
    ensures FirstChar(EncodeChar(c) + rest) == c
  {
    var x := c as int;
    var b := EncodeChar(c) + rest;
    Groups(x);
    assert x < 0xD800 || 0xE000 <= x;
    if x < 0x80 {
      assert FirstLength(b) == Some(1);
    } else if x < 0x800 {
      assert FirstLength(b) == Some(2);
    } else if x < 0x1_0000 {
      ThirdForm(x);
      assert FirstLength(b) == Some(3);
    } else {
      FourthForm(x);
      assert FirstLength(b) == Some(4);
    }
  }

  lemma ThirdForm(x: nat)
    requires 0x800 <= x < 0xD800 || 0xE000 <= x < 0x1_0000
    ensures SecondFits(0xE0 + x / 4096, 0x80 + x / 64 % 64)
  {
    Groups(x);
  }

  lemma FourthForm(x: nat)
    requires 0x1_0000 <= x < 0x11_0000
    ensures SecondFits(0xF0 + x / 0x4_0000, 0x80 + x / 4096 % 64)
  {
    Groups(x);
  }

  /** Joining groups of six bits and splitting them again gives the groups. */
  lemma Ungroup(h: nat, p: nat, q: nat, r: nat)
    requires p < 64 && q < 64 && r < 64
    ensures (q * 64 + r) / 64 == q && (q * 64 + r) % 64 == r
    ensures var x := p * 4096 + q * 64 + r;
            x / 4096 == p && x / 64 % 64 == q && x % 64 == r
    ensures var x := h * 0x4_0000 + p * 4096 + q * 64 + r;
            x / 0x4_0000 == h && x / 4096 % 64 == p && x / 64 % 64 == q && x % 64 == r
  {
    UngroupOne(q, r);
    UngroupOne(p * 64 + q, r);
    UngroupOne(p, q);
    UngroupOne(h * 4096 + p * 64 + q, r);
    UngroupOne(h * 64 + p, q);
    UngroupOne(h, p);
    DivTwice(p * 4096 + q * 64 + r);
    DivTwice(h * 0x4_0000 + p * 4096 + q * 64 + r);
  }

  lemma UngroupOne(q: nat, r: nat)
    requires r < 64
    ensures (q * 64 + r) / 64 == q && (q * 64 + r) % 64 == r
  {
  }

  lemma DivTwice(x: nat)
    ensures x / 4096 == x / 64 / 64 && x / 0x4_0000 == x / 64 / 64 / 64
  {
  }

  lemma FirstCharEncodes(b: seq<byte>)
    requires FirstLength(b).Some?
    ensures EncodeChar(FirstChar(b)) == b[..FirstLength(b).value]
  {
    match FirstLength(b).value
    case 1 =>
      assert EncodeChar(FirstChar(b)) == [b[0]];
    case 2 =>
      Ungroup(0, 0, b[0] as int - 0xC0, SixBits(b[1]));
      assert EncodeChar(FirstChar(b)) == [b[0], b[1]];
    case 3 =>
      Ungroup(0, b[0] as int - 0xE0, SixBits(b[1]), SixBits(b[2]));
      assert EncodeChar(FirstChar(b)) == [b[0], b[1], b[2]];
    case _ =>
      Ungroup(b[0] as int - 0xF0, SixBits(b[1]), SixBits(b[2]), SixBits(b[3]));
      assert EncodeChar(FirstChar(b)) == [b[0], b[1], b[2], b[3]];
  }

  lemma {:induction false} DecodeEncode(s: string)
    ensures Decode(Encode(s)) == Some(s)
    ensures DecodeLossy(Encode(s)) == s
  {
    if s != "" {
      var head, tail := EncodeChar(s[0]), Encode(s[1..]);
      EncodeCharDecodes(s[0], tail);
      assert (head + tail)[|head|..] == tail;
      DecodeEncode(s[1..]);
      assert s == [s[0]] + s[1..];
    }
  }

  /** Strict decoding accepts nothing but the encoding itself. */
  lemma {:induction false} EncodeDecode(b: seq<byte>)
    requires Decode(b).Some?
    ensures Encode(Decode(b).value) == b
    ensures DecodeLossy(b) == Decode(b).value
  {
    if b != [] {
      DecodeStep(b);
      var n := FirstLength(b).value;
      EncodeDecode(b[n..]);
      EncodeCons(FirstChar(b), Decode(b[n..]).value);
      FirstCharEncodes(b);
      Rejoined(b, n);
    }
  }

  lemma DecodeStep(b: seq<byte>)
    requires b != [] && Decode(b).Some?
    ensures FirstLength(b).Some?
    ensures var n := FirstLength(b).value;
            && Decode(b[n..]).Some? && Decode(b).value == [FirstChar(b)] + Decode(b[n..]).value
            && DecodeLossy(b) == [FirstChar(b)] + DecodeLossy(b[n..])
  {
  }

  lemma Rejoined(b: seq<byte>, n: nat)
    requires n <= |b|
    ensures b[..n] + b[n..] == b
  {
  }

  lemma EncodeCons(c: char, s: string)
    ensures Encode([c] + s) == EncodeChar(c) + Encode(s)
  {
    assert ([c] + s)[1..] == s;
  }
}
