/** What lossy decoding makes of bytes that are not UTF-8, told by the encoder alone. */
module Utf8Lossy {
  import opened Wrappers
  import opened Utf8

  /** The bytes start with a whole character. */
  ghost predicate StartsChar(b: seq<byte>) {
    exists c :: EncodeChar(c) <= b
  }

  /** The bytes are the beginning of some character. */
  ghost predicate BeginsChar(b: seq<byte>) {
    exists c :: b <= EncodeChar(c)
  }

  /** The first `n` bytes start no character and stand for one U+FFFD: as many as begin
      some character, or one byte if even that begins none. */
  ghost predicate IllFormed(b: seq<byte>, n: nat) {
    && 1 <= n <= |b| && !StartsChar(b)
    && (n > 1 ==> BeginsChar(b[..n]))
    && (forall m :: n < m <= |b| ==> !BeginsChar(b[..m]))
  }

  /** `s` has the characters of `b` in order, and one U+FFFD for each ill-formed stretch. */
  ghost predicate Reads(b: seq<byte>, s: string)
    decreases |b|
  {
    if b == [] then s == ""
    else
      && s != ""
      && ((exists c :: EncodeChar(c) <= b && s[0] == c && Reads(b[|EncodeChar(c)|..], s[1..]))
          || (s[0] == '\U{FFFD}' && exists n: nat :: IllFormed(b, n) && Reads(b[n..], s[1..])))
  }

  // ---------- The decoder's tests ----------

  lemma FirstOf(b: seq<byte>, c: char)
    requires EncodeChar(c) <= b
    ensures FirstLength(b) == Some(|EncodeChar(c)|) && FirstChar(b) == c
  {
    var rest := b[|EncodeChar(c)|..];
    assert EncodeChar(c) + rest == b;
    EncodeCharDecodes(c, rest);
  }

  lemma FirstIff(b: seq<byte>)
    ensures FirstLength(b).Some? <==> StartsChar(b)
    ensures FirstLength(b).Some? ==> EncodeChar(FirstChar(b)) == b[..FirstLength(b).value]
  {
    if FirstLength(b).Some? {
      FirstCharEncodes(b);
      assert EncodeChar(FirstChar(b)) <= b;
    }
    if StartsChar(b) {
      var c :| EncodeChar(c) <= b;
      FirstOf(b, c);
    }
  }

  /** Filled up with tail bytes, what `BadLength` takes is a character. */
  lemma BadBegins(b: seq<byte>)
    requires b != [] && FirstLength(b).None? && BadLength(b) > 1
    ensures BeginsChar(b[..BadLength(b)])
  {
    var n := BadLength(b);
    var size := if b[0] < 0xF0 then 3 else 4;
    assert n < size;
    var filled := b[..n] + seq(size - n, _ => 0x80 as byte);
    assert FirstLength(filled) == Some(size);
    FirstCharEncodes(filled);
    assert filled[..size] == filled;
    assert b[..n] <= EncodeChar(FirstChar(filled));
  }

  lemma BeginningBound(b: seq<byte>, m: nat, c: char)
    requires b != [] && FirstLength(b).None?
    requires 1 < m <= |b| && b[..m] <= EncodeChar(c)
    ensures m <= BadLength(b)
  {
    var e := EncodeChar(c);
    EncodeCharDecodes(c, []);
    assert e + [] == e;
    assert forall i :: 0 <= i < m ==> b[i] == b[..m][i] == e[i];
    if m == |e| {
      FirstOf(b, c);
      assert false;
    }
  }

  lemma BadIff(b: seq<byte>, n: nat)
    requires b != [] && !StartsChar(b)
    ensures FirstLength(b).None? && (IllFormed(b, n) <==> n == BadLength(b))
  {
    FirstIff(b);
    var bad := BadLength(b);
    if bad > 1 {
      BadBegins(b);
    }
    forall m | 1 < m <= |b| && BeginsChar(b[..m])
      ensures m <= bad
    {
      var c :| b[..m] <= EncodeChar(c);
      BeginningBound(b, m, c);
    }
  }

  /** Lossy decoding is the one way to read the bytes. */
  lemma {:induction false} LossyReads(b: seq<byte>, s: string)
    ensures Reads(b, s) <==> s == DecodeLossy(b)
    decreases |b|
  {
    if b != [] && s != "" {
      FirstIff(b);
      assert s == [s[0]] + s[1..];
      if FirstLength(b).Some? {
        LossyReads(b[FirstLength(b).value..], s[1..]);
        ReadsChar(b, s);
      } else {
        LossyReads(b[BadLength(b)..], s[1..]);
        ReadsBad(b, s);
      }
    }
  }

  lemma ReadsChar(b: seq<byte>, s: string)
    requires b != [] && s != "" && FirstLength(b).Some?
    ensures Reads(b, s) <==> s[0] == FirstChar(b) && Reads(b[FirstLength(b).value..], s[1..])
  {
    FirstIff(b);
    forall c | EncodeChar(c) <= b
      ensures c == FirstChar(b) && |EncodeChar(c)| == FirstLength(b).value
    {
      FirstOf(b, c);
    }
    assert EncodeChar(FirstChar(b)) <= b;
  }

  lemma ReadsBad(b: seq<byte>, s: string)
    requires b != [] && s != "" && FirstLength(b).None?
    ensures Reads(b, s) <==> s[0] == '\U{FFFD}' && Reads(b[BadLength(b)..], s[1..])
  {
    FirstIff(b);
    forall n: nat
      ensures IllFormed(b, n) <==> n == BadLength(b)
    {
      BadIff(b, n);
    }
  }

  // ---------- Text around ill-formed bytes ----------

  lemma {:induction false} TextBefore(s: string, b: seq<byte>)
    ensures DecodeLossy(Encode(s) + b) == s + DecodeLossy(b)
  {
    if s == "" {
      assert Encode(s) + b == b;
    } else {
      FirstOfText(s, b);
      TextBefore(s[1..], b);
      Assoc(s[0], s[1..], DecodeLossy(b));
    }
  }

  lemma FirstOfText(s: string, b: seq<byte>)
    requires s != ""
    ensures DecodeLossy(Encode(s) + b) == [s[0]] + DecodeLossy(Encode(s[1..]) + b)
    ensures s == [s[0]] + s[1..]
  {
    var head, tail := EncodeChar(s[0]), Encode(s[1..]) + b;
    assert Encode(s) + b == head + tail;
    EncodeCharDecodes(s[0], tail);
    assert (head + tail)[|head|..] == tail;
  }

  lemma Assoc(c: char, s: string, t: string)
    ensures [c] + (s + t) == ([c] + s) + t
  {
  }

  /** Bytes that end, or go on with one that no character has after its first. */
  predicate Fresh(b: seq<byte>) {
    b == [] || !IsTail(b[0])
  }

  lemma EncodingFresh(s: string)
    ensures Fresh(Encode(s))
  {
    if s != "" {
      var x := s[0] as int;
      assert Encode(s)[0] == EncodeChar(s[0])[0];
      Groups(x);
    }
  }

  lemma FirstBefore(b: seq<byte>, next: seq<byte>)
    requires b != [] && Fresh(next)
    ensures FirstLength(b + next) == FirstLength(b)
    ensures FirstLength(b).Some? ==> FirstChar(b + next) == FirstChar(b)
    ensures FirstLength(b).None? ==> BadLength(b + next) == BadLength(b)
  {
    var all := b + next;
    assert all[0] == b[0];
    assert |b| >= 2 ==> all[1] == b[1];
    assert |b| >= 3 ==> all[2] == b[2];
    assert |b| >= 4 ==> all[3] == b[3];
    assert next != [] ==> all[|b|] == next[0];
    assert |all| == |b| + |next|;
  }

  /** What stands for the first bytes, whatever comes after all of them. */
  lemma LossyFirst(b: seq<byte>, next: seq<byte>) returns (c: char, n: nat)
    requires b != [] && Fresh(next)
    ensures 0 < n <= |b|
    ensures DecodeLossy(b) == [c] + DecodeLossy(b[n..])
    ensures DecodeLossy(b + next) == [c] + DecodeLossy(b[n..] + next)
  {
    FirstBefore(b, next);
    c := if FirstLength(b).Some? then FirstChar(b) else '\U{FFFD}';
    n := if FirstLength(b).Some? then FirstLength(b).value else BadLength(b);
    assert (b + next)[n..] == b[n..] + next;
  }

  lemma {:induction false} LossyAppend(b: seq<byte>, next: seq<byte>)
    requires Fresh(next)
    ensures DecodeLossy(b + next) == DecodeLossy(b) + DecodeLossy(next)
    decreases |b|
  {
    if b == [] {
      assert b + next == next;
    } else {
      var c, n := LossyFirst(b, next);
      LossyAppend(b[n..], next);
      Assoc(c, DecodeLossy(b[n..]), DecodeLossy(next));
    }
  }

  /** Whatever bytes stand between two texts, both survive whole. */
  lemma TextAround(s: string, bad: seq<byte>, t: string)
    ensures DecodeLossy(Encode(s) + bad + Encode(t)) == s + DecodeLossy(bad) + t
  {
    EncodingFresh(t);
    DecodeEncode(t);
    LossyAppend(Encode(s) + bad, Encode(t));
    TextBefore(s, bad);
  }

  // ---------- A text cut short ----------

  /** Cut anywhere, a text keeps its characters before the cut, and has one U+FFFD after
      them if the cut falls inside a character. */
  lemma {:induction false} CutText(s: string, n: nat) returns (k: nat)
    requires n <= |Encode(s)|
    ensures k <= |s| && |Encode(s[..k])| <= n
    ensures k < |s| ==> n < |Encode(s[..k + 1])|
    ensures DecodeLossy(Encode(s)[..n]) == if |Encode(s[..k])| == n then s[..k] else s[..k] + "\U{FFFD}"
    decreases |s|
  {
    if s == "" {
      k := 0;
    } else if n < |EncodeChar(s[0])| {
      k := 0;
      var head := EncodeChar(s[0]);
      assert s[..1][0] == s[0] && s[..1][1..] == "" && head + [] == head;
      assert Encode(s)[..n] == head[..n];
      if n > 0 {
        CutChar(s[0], n);
      }
    } else {
      var head, tail := EncodeChar(s[0]), Encode(s[1..]);
      var m := n - |head|;
      var j := CutText(s[1..], m);
      k := j + 1;
      assert Encode(s)[..n] == head + tail[..m];
      EncodeCharDecodes(s[0], tail[..m]);
      assert (head + tail[..m])[|head|..] == tail[..m];
      Prefixes(s, j);
    }
  }

  lemma Prefixes(s: string, j: nat)
    requires j < |s|
    ensures |Encode(s[..j + 1])| == |EncodeChar(s[0])| + |Encode(s[1..][..j])|
    ensures j + 1 < |s| ==> |Encode(s[..j + 2])| == |EncodeChar(s[0])| + |Encode(s[1..][..j + 1])|
    ensures [s[0]] + s[1..][..j] == s[..j + 1]
  {
    assert s[..j + 1][1..] == s[1..][..j];
    if j + 1 < |s| {
      assert s[..j + 2][1..] == s[1..][..j + 1];
    }
  }

  lemma CutChar(c: char, n: nat)
    requires 0 < n < |EncodeChar(c)|
    ensures DecodeLossy(EncodeChar(c)[..n]) == "\U{FFFD}"
  {
    var b := EncodeChar(c)[..n];
    if StartsChar(b) {
      var d :| EncodeChar(d) <= b;
      FirstOf(EncodeChar(c), d);
      FirstOf(EncodeChar(c), c);
      assert false;
    }
    FirstIff(b);
    assert b[..n] == b && b <= EncodeChar(c);
    assert IllFormed(b, n);
    BadIff(b, n);
    assert b[n..] == [];
  }
}
