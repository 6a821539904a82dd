/** Base64 with padding: the standard alphabet of section 4 of RFC 4648 and the
    URL-safe one of section 5. Decoding is canonical, as in the engines the source
    uses: padding is required and the unused low bits must be zero.

    Bytes are first regrouped into sextets and the sextets then written as symbols. */
module Base64 {
  import opened Wrappers

  datatype Alphabet = Standard | UrlSafe

  type sextet = v: int | 0 <= v < 64

  function Symbol(a: Alphabet, v: sextet): char {
    var n := v as int;
    if n < 26 then ('A' as int + n) as char
    else if n < 52 then ('a' as int + (n - 26)) as char
    else if n < 62 then ('0' as int + (n - 52)) as char
    else if n == 62 then (if a.UrlSafe? then '-' else '+')
    else (if a.UrlSafe? then '_' else '/')
  }

  function Value(a: Alphabet, c: char): Option<sextet> {
    if 'A' <= c <= 'Z' then Some(c as int - 65)
    else if 'a' <= c <= 'z' then Some(c as int - 97 + 26)
    else if '0' <= c <= '9' then Some(c as int - 48 + 52)
    else if c == (if a.UrlSafe? then '-' else '+') then Some(62)
    else if c == (if a.UrlSafe? then '_' else '/') then Some(63)
    else None
  }

  function Symbols(a: Alphabet, q: seq<sextet>): (s: string)
    ensures |s| == |q|
  {
    if q == [] then "" else [Symbol(a, q[0])] + Symbols(a, q[1..])
  }

  function Values(a: Alphabet, s: string): (q: Option<seq<sextet>>)
    ensures q.Some? ==> |q.value| == |s|
  {
    if s == "" then Some([])
    else
      match (Value(a, s[0]), Values(a, s[1..]))
      case (Some(v), Some(rest)) => Some([v] + rest)
      case _ => None
  }

  /** Bytes regrouped six bits at a time, the last group filled with zero bits. */
  function Regroup(b: seq<byte>): seq<sextet> {
    if |b| == 0 then []
    else
      var x := b[0] as int;
      if |b| == 1 then [x / 4, x % 4 * 16]
      else
        var y := b[1] as int;
        if |b| == 2 then [x / 4, x % 4 * 16 + y / 16, y % 16 * 4]
        else
          var z := b[2] as int;
          [x / 4, x % 4 * 16 + y / 16, y % 16 * 4 + z / 64, z % 64] + Regroup(b[3..])
  }

  /** The bytes a sequence of sextets carries, when no bits are left over. */
  function Join(q: seq<sextet>): Option<seq<byte>> {
    if |q| == 0 then Some([])
    else if |q| == 1 then None
    else
      var p, r := q[0] as int, q[1] as int;
      if |q| == 2 then
        if r % 16 == 0 then Some([p * 4 + r / 16]) else None
      else
        var t := q[2] as int;
        if |q| == 3 then
          if t % 4 == 0 then Some([p * 4 + r / 16, r % 16 * 16 + t / 4]) else None
        else
          match Join(q[4..])
          case None => None
          case Some(rest) =>
            Some([p * 4 + r / 16, r % 16 * 16 + t / 4, t % 4 * 64 + q[3] as int] + rest)
  }

  function Padding(n: nat): string {
    if n % 4 == 2 then "==" else if n % 4 == 3 then "=" else ""
  }

  function Encode(a: Alphabet, b: seq<byte>): string {
    var q := Regroup(b);
    Symbols(a, q) + Padding(|q|)
  }

  /** `s` without its padding: at most two `=` at its end. */
  function Unpadded(s: string): string {
    if |s| >= 2 && s[|s| - 2..] == "==" then s[..|s| - 2]
    else if |s| >= 1 && s[|s| - 1] == '=' then s[..|s| - 1]
    else s
  }

  function Decode(a: Alphabet, s: string): Option<seq<byte>> {
    if |s| % 4 != 0 then None
    else
      match Values(a, Unpadded(s))
      case None => None
      case Some(q) => Join(q)
  }

  lemma SymbolValue(a: Alphabet, v: sextet)
    ensures Value(a, Symbol(a, v)) == Some(v)
  {
  }

  lemma ValueSymbol(a: Alphabet, c: char)
    requires Value(a, c).Some?
    ensures c != '=' && Symbol(a, Value(a, c).value) == c
  {
  }

  lemma {:induction false} ValuesSymbols(a: Alphabet, q: seq<sextet>)
    ensures Values(a, Symbols(a, q)) == Some(q)
  {
    if q != [] {
      SymbolValue(a, q[0]);
      ValuesSymbols(a, q[1..]);
      assert Symbols(a, q)[1..] == Symbols(a, q[1..]);
      assert q == [q[0]] + q[1..];
    }
  }

  lemma {:induction false} SymbolsValues(a: Alphabet, s: string)
    requires Values(a, s).Some?
    ensures '=' !in s && Symbols(a, Values(a, s).value) == s
  {
    if s != "" {
      ValueSymbol(a, s[0]);
      SymbolsValues(a, s[1..]);
      assert Values(a, s).value[1..] == Values(a, s[1..]).value;
    }
  }

  /** Three bytes split into four sextets are packed back from them. */
  lemma Pack(x: byte, y: byte, z: byte)
    ensures x / 4 * 4 + (x % 4 * 16 + y / 16) / 16 == x
    ensures (x % 4 * 16 + y / 16) % 16 * 16 + (y % 16 * 4 + z / 64) / 4 == y
    ensures (y % 16 * 4 + z / 64) % 4 * 64 + z % 64 == z
  {
    assert (x % 4 * 16 + y / 16) / 16 == x % 4;
    assert (x % 4 * 16 + y / 16) % 16 == y / 16;
    assert (y % 16 * 4 + z / 64) / 4 == y % 16;
    assert (y % 16 * 4 + z / 64) % 4 == z / 64;
  }

  /** Four sextets packed into three bytes are read back out of them. */
  lemma Unpack(p: sextet, r: sextet, t: sextet, u: sextet)
    ensures (p * 4 + r / 16) / 4 == p
    ensures (p * 4 + r / 16) % 4 * 16 + (r % 16 * 16 + t / 4) / 16 == r
    ensures (r % 16 * 16 + t / 4) % 16 * 4 + (t % 4 * 64 + u) / 64 == t
    ensures (t % 4 * 64 + u) % 64 == u
  {
    assert (p * 4 + r / 16) % 4 == r / 16;
    assert (r % 16 * 16 + t / 4) / 16 == r % 16;
    assert (r % 16 * 16 + t / 4) % 16 == t / 4;
    assert (t % 4 * 64 + u) / 64 == t % 4;
  }

  lemma JoinGroup(x: byte, y: byte, z: byte, tail: seq<sextet>)
    requires Join(tail).Some?
    ensures Join([x / 4, x % 4 * 16 + y / 16, y % 16 * 4 + z / 64, z % 64] + tail) ==
            Some([x, y, z] + Join(tail).value)
  {
    var q: seq<sextet> := [x / 4, x % 4 * 16 + y / 16, y % 16 * 4 + z / 64, z % 64] + tail;
    assert q[4..] == tail;
    Pack(x, y, z);
  }

  lemma {:induction false} JoinRegroup(b: seq<byte>)
    ensures Join(Regroup(b)) == Some(b)
  {
    if |b| == 1 {
      Pack(b[0], 0, 0);
      assert b == [b[0]];
    } else if |b| == 2 {
      Pack(b[0], b[1], 0);
      assert b == [b[0], b[1]];
    } else if |b| >= 3 {
      var head := [b[0] / 4, b[0] % 4 * 16 + b[1] / 16, b[1] % 16 * 4 + b[2] / 64, b[2] % 64];
      var tail := Regroup(b[3..]);
      calc {
        Join(Regroup(b));
        Join(head + tail);
        { JoinRegroup(b[3..]); JoinGroup(b[0], b[1], b[2], tail); }
        Some([b[0], b[1], b[2]] + b[3..]);
        { assert b == [b[0], b[1], b[2]] + b[3..]; }
        Some(b);
      }
    }
  }

  lemma {:induction false} RegroupJoin(q: seq<sextet>)
    requires Join(q).Some?
    ensures Regroup(Join(q).value) == q
  {
    if |q| == 2 {
      Unpack(q[0], q[1], 0, 0);
    } else if |q| == 3 {
      Unpack(q[0], q[1], q[2], 0);
    } else if |q| >= 4 {
      Unpack(q[0], q[1], q[2], q[3]);
      RegroupJoin(q[4..]);
      assert Join(q).value[3..] == Join(q[4..]).value;
      assert q == [q[0], q[1], q[2], q[3]] + q[4..];
    }
  }

  lemma {:induction false} RegroupLength(b: seq<byte>)
    ensures |Regroup(b)| == (|b| * 4 + 2) / 3
    ensures |Regroup(b)| % 4 != 1
  {
    if |b| >= 3 {
      RegroupLength(b[3..]);
    }
  }

  lemma UnpaddedPadding(body: string)
    requires '=' !in body && |body| % 4 != 1
    ensures Unpadded(body + Padding(|body|)) == body
    ensures |body + Padding(|body|)| % 4 == 0
  {
    var s := body + Padding(|body|);
    if |body| % 4 == 2 {
      assert s[|s| - 2..] == "==";
      assert s[..|s| - 2] == body;
    } else if |body| % 4 == 3 {
      assert s[|s| - 2..][0] == body[|body| - 1];
      assert s[..|s| - 1] == body;
    } else if body != "" {
      assert s == body;
      assert s[|s| - 2..][1] == body[|body| - 1];
    }
  }

  lemma PaddingUnpadded(s: string)
    requires |s| % 4 == 0 && '=' !in Unpadded(s)
    ensures Unpadded(s) + Padding(|Unpadded(s)|) == s
  {
    var body := Unpadded(s);
    if |body| == |s| - 2 {
      assert s == s[..|s| - 2] + s[|s| - 2..];
    } else if |body| == |s| - 1 {
      assert s == s[..|s| - 1] + "=";
    }
  }

  lemma DecodeEncode(a: Alphabet, b: seq<byte>)
    ensures Decode(a, Encode(a, b)) == Some(b)
  {
    var q := Regroup(b);
    RegroupLength(b);
    ValuesSymbols(a, q);
    SymbolsValues(a, Symbols(a, q));
    UnpaddedPadding(Symbols(a, q));
    JoinRegroup(b);
  }

  /** Canonical decoding accepts nothing but the encoding itself, so two different
      texts never decode to the same bytes. */
  lemma EncodeDecode(a: Alphabet, s: string)
    requires Decode(a, s).Some?
    ensures Encode(a, Decode(a, s).value) == s
  {
    var body := Unpadded(s);
    SymbolsValues(a, body);
    RegroupJoin(Values(a, body).value);
    PaddingUnpadded(s);
  }

  /** The characters an encoding may contain. */
  predicate InAlphabet(a: Alphabet, c: char) {
    c == '=' || Value(a, c).Some?
  }

  lemma {:induction false} SymbolsAlphabet(a: Alphabet, q: seq<sextet>)
    ensures forall c :: c in Symbols(a, q) ==> InAlphabet(a, c)
  {
    if q != [] {
      SymbolValue(a, q[0]);
      SymbolsAlphabet(a, q[1..]);
    }
  }

  lemma EncodeAlphabet(a: Alphabet, b: seq<byte>)
    ensures forall c :: c in Encode(a, b) ==> InAlphabet(a, c)
    ensures forall k :: 0 <= k < |Encode(a, b)| ==> InAlphabet(a, Encode(a, b)[k])
  {
    SymbolsAlphabet(a, Regroup(b));
    var s := Encode(a, b);
    assert forall k :: 0 <= k < |s| ==> s[k] in s;
  }
}
