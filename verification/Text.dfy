/** The operations on Rust `str` and Swift `String` that the modelled code calls.
    A string is its sequence of Unicode scalar values. */
module Text {
  import opened Wrappers

  predicate StartsWith(s: string, prefix: string) {
    prefix <= s
  }

  predicate EndsWith(s: string, suffix: string) {
    |suffix| <= |s| && s[|s| - |suffix|..] == suffix
  }

  function StripPrefix(s: string, prefix: string): Option<string> {
    if prefix <= s then Some(s[|prefix|..]) else None
  }

  /** `s` without one trailing `suffix`, if it has one. */
  function WithoutSuffix(s: string, suffix: string): string {
    if EndsWith(s, suffix) then s[..|s| - |suffix|] else s
  }

  lemma EndsWithChar(s: string, c: char)
    ensures EndsWith(s, [c]) <==> s != "" && s[|s| - 1] == c
  {
    if s != "" {
      assert s[|s| - 1..] == [s[|s| - 1]];
    }
  }

  lemma SuffixStart(s: string, suffix: string)
    requires suffix != ""
    ensures EndsWith(s, suffix) ==> s[|s| - |suffix|] == suffix[0]
  {
    if EndsWith(s, suffix) {
      assert s[|s| - |suffix|..][0] == s[|s| - |suffix|];
    }
  }

  /** The index of the first `c`, or the length when there is none. */
  function IndexOf(s: string, c: char): (i: nat)
    ensures i <= |s|
    ensures i < |s| ==> s[i] == c
    ensures forall k :: 0 <= k < i ==> s[k] != c
  {
    if s == "" || s[0] == c then 0 else 1 + IndexOf(s[1..], c)
  }

  lemma IndexOfUnique(s: string, c: char, i: nat)
    requires i <= |s|
    requires forall k :: 0 <= k < i ==> s[k] != c
    requires i < |s| ==> s[i] == c
    ensures IndexOf(s, c) == i
  {
  }

  /** `str::split_once`: around the first `c`. */
  function SplitOnce(s: string, c: char): Option<(string, string)> {
    var i := IndexOf(s, c);
    if i == |s| then None else Some((s[..i], s[i + 1..]))
  }

  lemma SplitOnceAt(a: string, c: char, b: string)
    requires c !in a
    ensures SplitOnce(a + [c] + b, c) == Some((a, b))
  {
    var s := a + [c] + b;
    assert s[..|a|] == a && s[|a| + 1..] == b;
    assert forall k :: 0 <= k < |a| ==> s[k] == a[k];
    IndexOfUnique(s, c, |a|);
  }

  /** `str::split_terminator('\n')`: an empty last piece is dropped. */
  function SplitTerminator(s: string): (lines: seq<string>)
    ensures NoNewlines(lines)
  {
    if s == "" then []
    else
      var i := IndexOf(s, '\n');
      if i == |s| then [s]
      else [s[..i]] + SplitTerminator(s[i + 1..])
  }

  /** `str::split('\n')`: never empty. */
  function Split(s: string): (lines: seq<string>)
    ensures lines != []
    ensures NoNewlines(lines)
  {
    var i := IndexOf(s, '\n');
    if i == |s| then [s]
    else [s[..i]] + Split(s[i + 1..])
  }

  /** Every line followed by a newline. */
  function Unlines(lines: seq<string>): string {
    if lines == [] then "" else lines[0] + "\n" + Unlines(lines[1..])
  }

  ghost predicate NoNewlines(lines: seq<string>) {
    forall k :: 0 <= k < |lines| ==> '\n' !in lines[k]
  }

  /** The first line of a text splits off it. */
  lemma FirstLine(line: string, rest: string)
    requires '\n' !in line
    ensures SplitTerminator(line + "\n" + rest) == [line] + SplitTerminator(rest)
    ensures Split(line + "\n" + rest) == [line] + Split(rest)
  {
    var s := line + "\n" + rest;
    assert forall k :: 0 <= k < |line| ==> s[k] == line[k];
    IndexOfUnique(s, '\n', |line|);
    assert s[..|line|] == line && s[|line| + 1..] == rest;
  }

  lemma {:induction false} SplitTerminatorUnlines(lines: seq<string>, rest: string)
    requires NoNewlines(lines)
    ensures SplitTerminator(Unlines(lines) + rest) == lines + SplitTerminator(rest)
  {
    if lines == [] {
      assert Unlines(lines) + rest == rest;
    } else {
      var more := Unlines(lines[1..]) + rest;
      assert Unlines(lines) + rest == lines[0] + "\n" + more;
      calc {
        SplitTerminator(Unlines(lines) + rest);
        SplitTerminator(lines[0] + "\n" + more);
        { FirstLine(lines[0], more); }
        [lines[0]] + SplitTerminator(more);
        { SplitTerminatorUnlines(lines[1..], rest); }
        [lines[0]] + (lines[1..] + SplitTerminator(rest));
        lines + SplitTerminator(rest);
      }
    }
  }

  lemma {:induction false} SplitUnlines(lines: seq<string>, rest: string)
    requires NoNewlines(lines)
    ensures Split(Unlines(lines) + rest) == lines + Split(rest)
  {
    if lines == [] {
      assert Unlines(lines) + rest == rest;
    } else {
      var more := Unlines(lines[1..]) + rest;
      assert Unlines(lines) + rest == lines[0] + "\n" + more;
      calc {
        Split(Unlines(lines) + rest);
        Split(lines[0] + "\n" + more);
        { FirstLine(lines[0], more); }
        [lines[0]] + Split(more);
        { SplitUnlines(lines[1..], rest); }
        [lines[0]] + (lines[1..] + Split(rest));
        lines + Split(rest);
      }
    }
  }

  /** The two splits differ by at most one empty last piece. */
  lemma {:induction false} SplitVersusTerminator(s: string)
    ensures Split(s) == SplitTerminator(s) || Split(s) == SplitTerminator(s) + [""]
  {
    var i := IndexOf(s, '\n');
    if s != "" && i < |s| {
      SplitVersusTerminator(s[i + 1..]);
    }
  }

  /** Text that is empty or ends in a newline is exactly its lines. */
  lemma {:induction false} UnlinesSplitTerminator(s: string)
    requires s == "" || s[|s| - 1] == '\n'
    ensures Unlines(SplitTerminator(s)) == s
  {
    if s != "" {
      var i := IndexOf(s, '\n');
      assert i < |s|;
      var rest := s[i + 1..];
      assert rest != "" ==> rest[|rest| - 1] == s[|s| - 1];
      calc {
        Unlines(SplitTerminator(s));
        Unlines([s[..i]] + SplitTerminator(rest));
        s[..i] + "\n" + Unlines(SplitTerminator(rest));
        { UnlinesSplitTerminator(rest); }
        s[..i] + "\n" + rest;
        s;
      }
    }
  }

  lemma {:induction false} UnlinesAppend(a: seq<string>, b: seq<string>)
    ensures Unlines(a + b) == Unlines(a) + Unlines(b)
  {
    if a == [] {
      assert a + b == b;
    } else {
      UnlinesAppend(a[1..], b);
      assert (a + b)[1..] == a[1..] + b;
    }
  }

  /** No line of a text has a character the text does not have. */
  lemma {:induction false} LinesHaveNoOther(s: string, c: char)
    requires c !in s
    ensures forall k :: 0 <= k < |SplitTerminator(s)| ==> c !in SplitTerminator(s)[k]
  {
    if s != "" {
      var i := IndexOf(s, '\n');
      if i < |s| {
        LinesHaveNoOther(s[i + 1..], c);
        var tail := SplitTerminator(s[i + 1..]);
        assert SplitTerminator(s) == [s[..i]] + tail;
        assert c !in s[..i];
      }
    }
  }

  /** Unicode White_Space, which is what `str::trim` and Foundation's
      `whitespacesAndNewlines` both remove. */
  predicate IsSpace(c: char) {
    var x := c as int;
    9 <= x <= 13 || x == 0x20 || x == 0x85 || x == 0xA0 || x == 0x1680 ||
    0x2000 <= x <= 0x200A || x == 0x2028 || x == 0x2029 || x == 0x202F || x == 0x205F || x == 0x3000
  }

  function TrimStart(s: string): string {
    if s != "" && IsSpace(s[0]) then TrimStart(s[1..]) else s
  }

  function TrimEnd(s: string): string {
    if s != "" && IsSpace(s[|s| - 1]) then TrimEnd(s[..|s| - 1]) else s
  }

  function Trim(s: string): string {
    TrimEnd(TrimStart(s))
  }

  lemma TrimNothing(s: string)
    requires forall k :: 0 <= k < |s| ==> !IsSpace(s[k])
    ensures Trim(s) == s
  {
  }

  predicate AllSpace(s: string) {
    forall k :: 0 <= k < |s| ==> IsSpace(s[k])
  }

  /** Neither end is white space. */
  predicate Unpadded(s: string) {
    s != "" ==> !IsSpace(s[0]) && !IsSpace(s[|s| - 1])
  }

  /** Trimming takes the white space off both ends and nothing else. */
  lemma TrimIs(a: string, t: string, b: string)
    requires AllSpace(a) && AllSpace(b) && Unpadded(t)
    ensures Trim(a + t + b) == t
  {
    if t == "" {
      assert a + t + b == (a + b) + "";
      TrimStartIs(a + b, "");
    } else {
      assert a + t + b == a + (t + b);
      TrimStartIs(a, t + b);
      TrimEndIs(t, b);
    }
  }

  lemma {:induction false} TrimStartIs(a: string, s: string)
    requires AllSpace(a) && (s != "" ==> !IsSpace(s[0]))
    ensures TrimStart(a + s) == s
  {
    if a == "" {
      assert a + s == s;
    } else {
      assert (a + s)[1..] == a[1..] + s;
      TrimStartIs(a[1..], s);
    }
  }

  lemma {:induction false} TrimEndIs(s: string, b: string)
    requires AllSpace(b) && (s != "" ==> !IsSpace(s[|s| - 1]))
    ensures TrimEnd(s + b) == s
    decreases |b|
  {
    if b == "" {
      assert s + b == s;
    } else {
      var n := |b| - 1;
      assert (s + b)[..|s + b| - 1] == s + b[..n];
      TrimEndIs(s, b[..n]);
    }
  }

  /** Every text is its trimmed form with white space around it. */
  lemma Padding(s: string) returns (a: string, b: string)
    ensures s == a + Trim(s) + b && AllSpace(a) && AllSpace(b) && Unpadded(Trim(s))
  {
    var i := 0;
    while i < |s| && IsSpace(s[i])
      invariant i <= |s| && AllSpace(s[..i])
    {
      i := i + 1;
    }
    var j := |s|;
    while i < j && IsSpace(s[j - 1])
      invariant i <= j <= |s| && AllSpace(s[j..])
      invariant i < |s| ==> !IsSpace(s[i])
    {
      j := j - 1;
    }
    a, b := s[..i], s[j..];
    TrimIs(a, s[i..j], b);
    assert s == a + s[i..j] + b;
  }
}
