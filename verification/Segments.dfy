/** Splitting script output into sections. */
module Segments {
  import opened Wrappers
  import opened Text
  import opened Markers
  import Base64
  import Utf8
  import Utf8Lossy

  type Segment = (string, string)

  /** The parser between two lines: the open section's key, the text buffered for it,
      and the sections already closed. */
  datatype State = State(current: Option<string>, buf: string, result: seq<Segment>)

  const START := State(None, "", [])

  predicate IsCustom(key: string) {
    CustomResultName(key).Some?
  }

  predicate AllowBuiltin(current: Option<string>) {
    current.None? || !IsCustom(current.value)
  }

  function SectionText(key: string, buf: string): string {
    var text := WithoutSuffix(WithoutSuffix(buf, "\n"), "\r");
    if IsCustom(key) && StartsWith(text, CUSTOM_CMD_OUTPUT_PREFIX) then
      match Base64.Decode(Base64.Standard, text[|CUSTOM_CMD_OUTPUT_PREFIX|..])
      case Some(bytes) => Utf8.DecodeLossy(bytes)
      case None => text
    else text
  }

  function Flush(st: State): State {
    match st.current
    case None => st
    case Some(key) => State(None, "", st.result + [(key, SectionText(key, st.buf))])
  }

  function StepLine(st: State, raw: string): State {
    var line := WithoutSuffix(raw, "\r");
    match MarkerKey(line, AllowBuiltin(st.current))
    case Some(key) => Flush(st).(current := Some(key))
    case None => if st.current.Some? then st.(buf := st.buf + line + "\n") else st
  }

  function StepLines(st: State, lines: seq<string>): State
    decreases |lines|
  {
    if lines == [] then st else StepLines(StepLine(st, lines[0]), lines[1..])
  }

  function ParseSegments(raw: string): seq<Segment> {
    Flush(StepLines(START, SplitTerminator(raw))).result
  }

  method ParseScriptSegments(raw: string) returns (result: seq<Segment>)
    ensures result == ParseSegments(raw)
  {
    result := [];
    if raw == "" {
      return;
    }
    var lines := SplitTerminator(raw);
    var current: Option<string> := None;
    var buf := "";
    for i := 0 to |lines|
      invariant StepLines(State(current, buf, result), lines[i..]) == StepLines(START, lines)
    {
      var st := State(current, buf, result);
      assert lines[i..][1..] == lines[i + 1..];
      var line := WithoutSuffix(lines[i], "\r");
      var marker := MarkerKey(line, AllowBuiltin(current));
      if marker.Some? {
        var flushed := Flush(st);
        current, buf, result := marker, flushed.buf, flushed.result;
      } else if current.Some? {
        buf := buf + line + "\n";
      }
    }
    result := Flush(State(current, buf, result)).result;
  }

  // ---------- Folding over lines ----------

  lemma {:induction false} StepLinesAppend(st: State, a: seq<string>, b: seq<string>)
    ensures StepLines(st, a + b) == StepLines(StepLines(st, a), b)
    decreases |a|
  {
    if a == [] {
      assert a + b == b;
    } else {
      assert (a + b)[1..] == a[1..] + b;
      StepLinesAppend(StepLine(st, a[0]), a[1..], b);
    }
  }

  lemma WithoutCr(line: string)
    requires '\r' !in line
    ensures WithoutSuffix(line, "\r") == line
    ensures WithoutSuffix(line + "\r", "\r") == line
  {
    EndsWithChar(line, '\r');
    EndsWithChar(line + "\r", '\r');
  }

  ghost predicate NoCr(lines: seq<string>) {
    forall k :: 0 <= k < |lines| ==> '\r' !in lines[k]
  }

  ghost predicate NoMarkers(lines: seq<string>, allowBuiltin: bool) {
    forall k :: 0 <= k < |lines| ==> MarkerKey(WithoutSuffix(lines[k], "\r"), allowBuiltin).None?
  }

  /** Lines that are not markers are buffered by an open section and dropped otherwise. */
  lemma DataLine(st: State, line: string)
    requires MarkerKey(WithoutSuffix(line, "\r"), AllowBuiltin(st.current)).None?
    requires st.current.Some? ==> '\r' !in line
    ensures StepLine(st, line) == if st.current.Some? then st.(buf := st.buf + line + "\n") else st
  {
    if st.current.Some? {
      WithoutCr(line);
    }
  }

  lemma {:induction false} DataLines(st: State, lines: seq<string>)
    requires NoMarkers(lines, AllowBuiltin(st.current))
    requires st.current.Some? ==> NoCr(lines)
    ensures StepLines(st, lines) ==
            if st.current.Some? then st.(buf := st.buf + Unlines(lines)) else st
    decreases |lines|
  {
    if lines == [] {
      assert st.buf + Unlines(lines) == st.buf;
    } else {
      DataLine(st, lines[0]);
      DataLines(StepLine(st, lines[0]), lines[1..]);
      LineJoined(st.buf, lines[0], "\n", Unlines(lines[1..]));
    }
  }

  lemma LineJoined(a: string, b: string, c: string, d: string)
    ensures a + b + c + d == a + (b + c + d)
  {
  }

  // ---------- Printing and parsing back ----------

  const MAX_OUTPUT_BYTES := 64 * 1024

  /** A built-in command's text, the bytes a custom command printed, or a custom section
      whose text is not encoded. */
  datatype Section =
    | Builtin(key: string, output: string)
    | Custom(name: string, printed: seq<byte>)
    | Plain(name: string, output: string)

  /** The bytes of a custom command's output that are sent. */
  function Sent(printed: seq<byte>): seq<byte> {
    if |printed| <= MAX_OUTPUT_BYTES then printed else printed[..MAX_OUTPUT_BYTES]
  }

  function EncodedOutput(printed: seq<byte>): string {
    CUSTOM_CMD_OUTPUT_PREFIX + Base64.Encode(Base64.Standard, Sent(printed))
  }

  /** What the script prints for one section. */
  function PrintSection(s: Section): string {
    match s
    case Builtin(key, output) => CmdMarker(key) + "\n" + output
    case Custom(name, printed) => CustomCmdMarker(name) + "\n" + EncodedOutput(printed) + "\n"
    case Plain(name, output) => CustomCmdMarker(name) + "\n" + output
  }

  function Print(sections: seq<Section>): string {
    if sections == [] then "" else PrintSection(sections[0]) + Print(sections[1..])
  }

  predicate NewlineEnded(s: string) {
    s == "" || s[|s| - 1] == '\n'
  }

  /** Whole lines without a carriage return, none of them a marker. */
  ghost predicate WholeLines(output: string, allowBuiltin: bool) {
    NewlineEnded(output) && '\r' !in output && NoMarkers(SplitTerminator(output), allowBuiltin)
  }

  predicate IsEncoded(text: string) {
    CUSTOM_CMD_OUTPUT_PREFIX <= text && Base64.Decode(Base64.Standard, text[|CUSTOM_CMD_OUTPUT_PREFIX|..]).Some?
  }

  /** A built-in command's output is whole lines; a custom command has a name and may print
      any bytes. What is printed for it may also be whole lines that are not an encoding. */
  ghost predicate Printable(s: Section) {
    match s
    case Builtin(key, output) => !IsCustom(key) && WholeLines(output, true)
    case Custom(name, _) => name != ""
    case Plain(name, output) => name != "" && WholeLines(output, false) && !IsEncoded(WithoutSuffix(output, "\n"))
  }

  ghost predicate ScriptShape(sections: seq<Section>) {
    && (forall i :: 0 <= i < |sections| ==> Printable(sections[i]))
    && (forall i, j :: 0 <= i < j < |sections| && sections[j].Builtin? ==> sections[i].Builtin?)
  }

  function Parsed(s: Section): Segment {
    match s
    case Builtin(key, output) => (key, WithoutSuffix(output, "\n"))
    case Custom(name, printed) => (CustomResultKey(name), Utf8.DecodeLossy(Sent(printed)))
    case Plain(name, output) => (CustomResultKey(name), WithoutSuffix(output, "\n"))
  }

  function ParsedAll(sections: seq<Section>): seq<Segment> {
    if sections == [] then [] else [Parsed(sections[0])] + ParsedAll(sections[1..])
  }

  function SectionLines(s: Section): seq<string> {
    match s
    case Builtin(key, output) => [CmdMarker(key)] + SplitTerminator(output)
    case Custom(name, printed) => [CustomCmdMarker(name), EncodedOutput(printed)]
    case Plain(name, output) => [CustomCmdMarker(name)] + SplitTerminator(output)
  }

  function AllLines(sections: seq<Section>): seq<string> {
    if sections == [] then [] else SectionLines(sections[0]) + AllLines(sections[1..])
  }

  lemma EncodedOutputIsLine(printed: seq<byte>)
    ensures '\n' !in EncodedOutput(printed) && '\r' !in EncodedOutput(printed)
  {
    Base64.EncodeAlphabet(Base64.Standard, Sent(printed));
  }

  lemma SectionLinesPrinted(s: Section)
    requires Printable(s)
    ensures Unlines(SectionLines(s)) == PrintSection(s)
    ensures NoNewlines(SectionLines(s)) && NoCr(SectionLines(s))
  {
    match s
    case Builtin(key, output) =>
      MarkersAreLines(key);
      TextLinesPrinted(CmdMarker(key), output);
    case Custom(name, printed) =>
      MarkersAreLines(name);
      EncodedOutputIsLine(printed);
      var lines := SectionLines(s);
      assert lines[1..] == [EncodedOutput(printed)];
      assert Unlines(lines[1..]) == EncodedOutput(printed) + "\n";
    case Plain(name, output) =>
      MarkersAreLines(name);
      TextLinesPrinted(CustomCmdMarker(name), output);
  }

  lemma TextLinesPrinted(marker: string, output: string)
    requires '\n' !in marker && '\r' !in marker && NewlineEnded(output) && '\r' !in output
    ensures var lines := [marker] + SplitTerminator(output);
            Unlines(lines) == marker + "\n" + output && NoNewlines(lines) && NoCr(lines)
  {
    UnlinesSplitTerminator(output);
    LinesHaveNoOther(output, '\r');
    var lines := [marker] + SplitTerminator(output);
    assert lines[1..] == SplitTerminator(output);
  }

  lemma {:induction false} AllLinesPrinted(sections: seq<Section>)
    requires forall i :: 0 <= i < |sections| ==> Printable(sections[i])
    ensures Unlines(AllLines(sections)) == Print(sections)
    ensures NoNewlines(AllLines(sections)) && NoCr(AllLines(sections))
  {
    if sections != [] {
      SectionLinesPrinted(sections[0]);
      AllLinesPrinted(sections[1..]);
      UnlinesAppend(SectionLines(sections[0]), AllLines(sections[1..]));
    }
  }

  /** Every line given the carriage return a CRLF stream carries. */
  function WithCr(lines: seq<string>): (r: seq<string>)
    ensures |r| == |lines|
  {
    seq(|lines|, i requires 0 <= i < |lines| => lines[i] + "\r")
  }

  lemma {:induction false} CrIgnored(st: State, lines: seq<string>)
    requires NoCr(lines)
    ensures StepLines(st, WithCr(lines)) == StepLines(st, lines)
    decreases |lines|
  {
    if lines != [] {
      WithoutCr(lines[0]);
      assert WithCr(lines)[1..] == WithCr(lines[1..]);
      CrIgnored(StepLine(st, lines[0]), lines[1..]);
    }
  }

  /** A section's text is what was printed for it. */
  lemma SectionTextParsed(s: Section)
    requires Printable(s)
    ensures SectionText(Parsed(s).0, Unlines(SectionLines(s)[1..])) == Parsed(s).1
  {
    match s
    case Builtin(key, output) =>
      assert SectionLines(s)[1..] == SplitTerminator(output);
      UnlinesSplitTerminator(output);
      TextKept(key, output);
    case Custom(name, printed) =>
      assert SectionLines(s)[1..] == [EncodedOutput(printed)];
      EncodedTextParsed(name, printed);
    case Plain(name, output) =>
      assert SectionLines(s)[1..] == SplitTerminator(output);
      UnlinesSplitTerminator(output);
      TextKept(CustomResultKey(name), output);
  }

  lemma TextKept(key: string, output: string)
    requires NewlineEnded(output) && '\r' !in output
    requires IsCustom(key) ==> !IsEncoded(WithoutSuffix(output, "\n"))
    ensures SectionText(key, output) == WithoutSuffix(output, "\n")
  {
    var text := WithoutSuffix(output, "\n");
    assert forall c :: c in text ==> c in output;
    WithoutCr(text);
  }

  /** A carriage return before the end of the last line is no part of the text, even one that
      the end of the line did not take away. */
  lemma LastCrDropped(key: string, text: string)
    requires !EndsWith(text, "\r")
    ensures SectionText(key, text + "\r\n") == SectionText(key, text + "\n")
  {
    OneCharOff(text + "\r", '\n');
    OneCharOff(text, '\n');
    OneCharOff(text, '\r');
    assert text + "\r\n" == (text + "\r") + ['\n'];
    assert text + "\n" == text + ['\n'] && text + "\r" == text + ['\r'];
    SameText(key, text + "\r\n", text + "\n");
  }

  lemma OneCharOff(s: string, c: char)
    ensures WithoutSuffix(s + [c], [c]) == s
  {
    EndsWithChar(s + [c], c);
  }

  lemma SameText(key: string, a: string, b: string)
    requires WithoutSuffix(WithoutSuffix(a, "\n"), "\r") == WithoutSuffix(WithoutSuffix(b, "\n"), "\r")
    ensures SectionText(key, a) == SectionText(key, b)
  {
  }

  lemma EncodedTextParsed(name: string, printed: seq<byte>)
    requires name != ""
    ensures SectionText(CustomResultKey(name), Unlines([EncodedOutput(printed)])) == Utf8.DecodeLossy(Sent(printed))
  {
    CustomResultNameOfKey(name);
    var line := EncodedOutput(printed);
    assert Unlines([line]) == line + "\n";
    assert WithoutSuffix(line + "\n", "\n") == line;
    EncodedOutputIsLine(printed);
    WithoutCr(line);
    PrefixSplits(CUSTOM_CMD_OUTPUT_PREFIX, line[|CUSTOM_CMD_OUTPUT_PREFIX|..]);
    assert line[|CUSTOM_CMD_OUTPUT_PREFIX|..] == Base64.Encode(Base64.Standard, Sent(printed));
    Base64.DecodeEncode(Base64.Standard, Sent(printed));
  }

  /** One printed section closes the one before it and buffers its own lines. */
  lemma StepSection(st: State, s: Section)
    requires Printable(s)
    requires st.current.None? ==> st.buf == ""
    requires s.Builtin? ==> AllowBuiltin(st.current)
    ensures StepLines(st, SectionLines(s)) ==
            State(Some(Parsed(s).0), Unlines(SectionLines(s)[1..]), Flush(st).result)
    ensures AllowBuiltin(Some(Parsed(s).0)) <==> s.Builtin?
  {
    var lines := SectionLines(s);
    var name := if s.Builtin? then s.key else s.name;
    SectionLinesPrinted(s);
    assert '\r' !in lines[0];
    WithoutCr(lines[0]);
    PrintedMarkers(name);
    var started := StepLine(st, lines[0]);
    assert started == Flush(st).(current := Some(Parsed(s).0));
    CustomResultNameOfKey(name);
    if s.Custom? {
      OutputLineIsData(Base64.Encode(Base64.Standard, Sent(s.printed)), false);
      WithoutCr(lines[1]);
      assert lines[1..] == [lines[1]];
    } else {
      assert lines[1..] == SplitTerminator(s.output);
    }
    DataLines(started, lines[1..]);
  }

  /** Closing a printed section adds exactly its segment. */
  lemma FlushSection(st: State, s: Section)
    requires Printable(s)
    requires st.current.None? ==> st.buf == ""
    requires s.Builtin? ==> AllowBuiltin(st.current)
    ensures var next := StepLines(st, SectionLines(s));
            && Flush(next).result == Flush(st).result + [Parsed(s)]
            && next.current.Some?
            && (s.Builtin? ==> AllowBuiltin(next.current))
  {
    StepSection(st, s);
    SectionTextParsed(s);
  }

  lemma ScriptShapeTail(sections: seq<Section>)
    requires ScriptShape(sections) && sections != []
    ensures ScriptShape(sections[1..])
    ensures |sections| > 1 && sections[1].Builtin? ==> sections[0].Builtin?
  {
    var rest := sections[1..];
    assert forall i :: 0 <= i < |rest| ==> rest[i] == sections[i + 1];
  }

  lemma {:induction false} StepSections(st: State, sections: seq<Section>)
    requires ScriptShape(sections)
    requires st.current.None? ==> st.buf == ""
    requires sections != [] && sections[0].Builtin? ==> AllowBuiltin(st.current)
    ensures Flush(StepLines(st, AllLines(sections))).result == Flush(st).result + ParsedAll(sections)
    decreases |sections|
  {
    if sections != [] {
      var s, rest := sections[0], sections[1..];
      FlushSection(st, s);
      ScriptShapeTail(sections);
      var next := StepLines(st, SectionLines(s));
      StepSections(next, rest);
      StepLinesAppend(st, SectionLines(s), AllLines(rest));
      Assoc(Flush(st).result, Parsed(s), ParsedAll(rest));
    }
  }

  lemma Assoc(before: seq<Segment>, one: Segment, after: seq<Segment>)
    ensures before + [one] + after == before + ([one] + after)
  {
  }

  /** Text before the first marker: whole lines, none of them a marker. */
  ghost predicate Preamble(text: string) {
    WholeLines(text, true)
  }

  /** What the script prints parses back to the same keys and texts in the same order,
      whatever comes before the first marker. A custom command's bytes come back as the one
      text that reads those sent (`CustomOutputReads`). */
  lemma RoundTrip(preamble: string, sections: seq<Section>)
    requires Preamble(preamble) && ScriptShape(sections)
    ensures ParseSegments(preamble + Print(sections)) == ParsedAll(sections)
  {
    var before, lines := SplitTerminator(preamble), AllLines(sections);
    PrintedLines(preamble, sections);
    DataLines(START, before);
    StepLinesAppend(START, before, lines);
    StepSections(START, sections);
  }

  /** The text of a custom section is the one reading of the bytes that are sent, the first
      64 KiB of what the command printed. */
  lemma CustomOutputReads(name: string, printed: seq<byte>)
    ensures Utf8Lossy.Reads(printed[..if |printed| <= 65_536 then |printed| else 65_536], Parsed(Custom(name, printed)).1)
  {
    var n := if |printed| <= 65_536 then |printed| else 65_536;
    assert Sent(printed) == printed[..n];
    Utf8Lossy.LossyReads(printed[..n], Utf8.DecodeLossy(printed[..n]));
  }

  /** A command that prints text has it all back if it was sent whole; else the characters
      before the cut, with one U+FFFD if the cut falls inside a character. */
  lemma CustomTextReads(name: string, text: string) returns (k: nat)
    ensures k <= |text| && |Utf8.Encode(text[..k])| <= 65_536
    ensures k < |text| ==> |Utf8.Encode(text[..k + 1])| > 65_536
    ensures Parsed(Custom(name, Utf8.Encode(text))).1 ==
            if k == |text| || |Utf8.Encode(text[..k])| == 65_536 then text[..k] else text[..k] + "\U{FFFD}"
  {
    var printed := Utf8.Encode(text);
    assert text[..|text|] == text;
    if |printed| <= 65_536 {
      k := |text|;
      Utf8.DecodeEncode(text);
    } else {
      k := Utf8Lossy.CutText(text, 65_536);
      if k == |text| {
        assert false;
      }
    }
  }

  lemma PrintedLines(preamble: string, sections: seq<Section>)
    requires Preamble(preamble) && ScriptShape(sections)
    ensures NoCr(SplitTerminator(preamble) + AllLines(sections))
    ensures NoNewlines(SplitTerminator(preamble) + AllLines(sections))
    ensures Unlines(SplitTerminator(preamble) + AllLines(sections)) == preamble + Print(sections)
    ensures SplitTerminator(preamble + Print(sections)) == SplitTerminator(preamble) + AllLines(sections)
  {
    var before, lines := SplitTerminator(preamble), AllLines(sections);
    UnlinesSplitTerminator(preamble);
    LinesHaveNoOther(preamble, '\r');
    AllLinesPrinted(sections);
    UnlinesAppend(before, lines);
    SplitTerminatorUnlines(before + lines, "");
    assert Unlines(before + lines) + "" == preamble + Print(sections);
  }

  /** The text with every newline sent as CRLF. */
  function Crlf(s: string): string {
    if s == "" then "" else (if s[0] == '\n' then "\r\n" else [s[0]]) + Crlf(s[1..])
  }

  lemma {:induction false} CrlfAppend(a: string, b: string)
    ensures Crlf(a + b) == Crlf(a) + Crlf(b)
  {
    if a == "" {
      assert a + b == b;
    } else {
      assert (a + b)[1..] == a[1..] + b;
      CrlfAppend(a[1..], b);
    }
  }

  lemma {:induction false} CrlfLine(line: string)
    requires '\n' !in line
    ensures Crlf(line) == line
  {
    if line != "" {
      CrlfLine(line[1..]);
    }
  }

  lemma CrlfFirst(line: string, rest: string)
    requires '\n' !in line
    ensures Crlf(line + "\n" + rest) == line + "\r" + "\n" + Crlf(rest)
  {
    CrlfAppend(line + "\n", rest);
    CrlfAppend(line, "\n");
    CrlfLine(line);
    assert "\n"[1..] == "" && Crlf("") == "" && Crlf("\n") == "\r\n";
    assert line + "\r\n" == line + "\r" + "\n";
  }

  lemma {:induction false} CrlfUnlines(lines: seq<string>)
    requires NoNewlines(lines)
    ensures Crlf(Unlines(lines)) == Unlines(WithCr(lines))
  {
    if lines != [] {
      CrlfFirst(lines[0], Unlines(lines[1..]));
      CrlfUnlines(lines[1..]);
      assert WithCr(lines)[0] == lines[0] + "\r" && WithCr(lines)[1..] == WithCr(lines[1..]);
    }
  }

  /** The same list results when the stream arrives with CRLF line ends. */
  lemma RoundTripCrlf(preamble: string, sections: seq<Section>)
    requires Preamble(preamble) && ScriptShape(sections)
    ensures ParseSegments(Crlf(preamble + Print(sections))) == ParsedAll(sections)
  {
    var lines := SplitTerminator(preamble) + AllLines(sections);
    PrintedLines(preamble, sections);
    CrlfUnlines(lines);
    var sent := WithCr(lines);
    SplitTerminatorUnlines(sent, "");
    assert Unlines(sent) + "" == Unlines(sent);
    assert sent + [] == sent;
    CrIgnored(START, lines);
    RoundTrip(preamble, sections);
  }

  // ---------- Built-in isolation ----------

  /** No line opens a custom section without a name. */
  ghost predicate NoUnnamed(lines: seq<string>) {
    forall k :: 0 <= k < |lines| ==> CustomKey(WithoutSuffix(lines[k], "\r")) != Some(CustomResultKey(""))
  }

  /** While a named custom section is open, every section that is added is custom. */
  lemma {:induction false} CustomStays(st: State, lines: seq<string>)
    requires st.current.Some? && IsCustom(st.current.value)
    requires NoUnnamed(lines)
    ensures var end := Flush(StepLines(st, lines));
            && st.result < end.result
            && forall i :: |st.result| <= i < |end.result| ==> IsCustom(end.result[i].0)
    decreases |lines|
  {
    if lines != [] {
      var next := StepLine(st, lines[0]);
      var line := WithoutSuffix(lines[0], "\r");
      if CustomKey(line).Some? && !IsCustom(CustomKey(line).value) {
        UnnamedIsOnlyOpenKey(line, false);
      }
      CustomStays(next, lines[1..]);
    }
  }

  /** From the line of a named custom marker on, later text can neither add a built-in
      section nor change one: what was parsed before the marker is kept as it was and
      everything after it is custom. */
  lemma BuiltinsIsolated(before: string, name: string, after: string)
    requires NewlineEnded(before) && name != ""
    requires NoUnnamed(SplitTerminator(after))
    ensures var all := ParseSegments(before + CustomCmdMarker(name) + "\n" + after);
            && ParseSegments(before) <= all
            && forall i :: |ParseSegments(before)| <= i < |all| ==> IsCustom(all[i].0)
  {
    AfterNamed(before, name, after);
    CustomResultNameOfKey(name);
    CustomStays(State(Some(CustomResultKey(name)), "", ParseSegments(before)), SplitTerminator(after));
  }

  /** The guard is needed: a custom marker without a name, inside a named custom section,
      lets the next built-in marker open a built-in section. */
  lemma UnnamedReopens(before: string, name: string, key: string)
    requires NewlineEnded(before) && name != ""
    ensures ParseSegments(before + CustomCmdMarker(name) + "\n" + Unlines([CustomCmdMarker(""), CmdMarker(key)])) ==
            ParseSegments(before) + [(CustomResultKey(name), ""), (CustomResultKey(""), ""), (key, "")]
  {
    AfterNamed(before, name, Unlines([CustomCmdMarker(""), CmdMarker(key)]));
    TwoLines("", key);
    Reopens(State(Some(CustomResultKey(name)), "", ParseSegments(before)), CustomResultKey(name), key);
    Assoc3(ParseSegments(before), (CustomResultKey(name), ""), (CustomResultKey(""), ""), (key, ""));
  }

  /** Parsing goes on after a named custom marker from what was parsed before it. */
  lemma AfterNamed(before: string, name: string, after: string)
    requires NewlineEnded(before) && name != ""
    ensures ParseSegments(before + CustomCmdMarker(name) + "\n" + after) ==
            Flush(StepLines(State(Some(CustomResultKey(name)), "", ParseSegments(before)), SplitTerminator(after))).result
  {
    var head := SplitTerminator(before);
    NamedMarkerLines(before, name, after);
    NothingLoose(START, head);
    StepMarker(StepLines(START, head), name);
    GoesOn(head, CustomCmdMarker(name), CustomResultKey(name), SplitTerminator(after));
  }

  lemma GoesOn(head: seq<string>, line: string, key: string, tail: seq<string>)
    requires var st := StepLines(START, head); StepLine(st, line) == State(Some(key), "", Flush(st).result)
    ensures StepLines(START, head + [line] + tail) == StepLines(State(Some(key), "", Flush(StepLines(START, head)).result), tail)
  {
    StepLinesAppend(START, head + [line], tail);
    StepLinesAppend(START, head, [line]);
    StepOne(StepLines(START, head), line);
  }

  /** Nothing is buffered while no section is open. */
  lemma {:induction false} NothingLoose(st: State, lines: seq<string>)
    requires st.current.None? ==> st.buf == ""
    ensures Flush(StepLines(st, lines)).buf == ""
    decreases |lines|
  {
    if lines != [] {
      NothingLoose(StepLine(st, lines[0]), lines[1..]);
    }
  }

  lemma Assoc3(a: seq<Segment>, x: Segment, y: Segment, z: Segment)
    ensures a + [x] + [y] + [z] == a + [x, y, z]
  {
  }

  lemma Reopens(st: State, current: string, key: string)
    requires st.current == Some(current) && st.buf == ""
    ensures Flush(StepLines(st, [CustomCmdMarker(""), CmdMarker(key)])).result ==
            st.result + [(current, "")] + [(CustomResultKey(""), "")] + [(key, "")]
  {
    UnnamedThenBuiltin(key);
    TwoLines("", key);
    TwoMarkers(st, CustomCmdMarker(""), CustomResultKey(""), CmdMarker(key), key);
  }

  lemma StepOne(st: State, line: string)
    ensures StepLines(st, [line]) == StepLine(st, line)
  {
    assert [line][1..] == [];
  }

  lemma TwoLines(name: string, key: string)
    ensures SplitTerminator(Unlines([CustomCmdMarker(name), CmdMarker(key)])) == [CustomCmdMarker(name), CmdMarker(key)]
    ensures '\r' !in CustomCmdMarker(name) && '\r' !in CmdMarker(key)
  {
    var lines := [CustomCmdMarker(name), CmdMarker(key)];
    MarkersAreLines(name);
    MarkersAreLines(key);
    SplitTerminatorUnlines(lines, "");
    assert Unlines(lines) + "" == Unlines(lines) && lines + [] == lines;
  }

  lemma UnnamedThenBuiltin(key: string)
    ensures forall allow :: MarkerKey(CustomCmdMarker(""), allow) == Some(CustomResultKey(""))
    ensures MarkerKey(CmdMarker(key), AllowBuiltin(Some(CustomResultKey("")))) == Some(key)
  {
    PrintedMarkers("");
    PrintedMarkers(key);
    CustomResultNameOfKey("");
  }

  /** Two marker lines close the open section and the one between them, both empty. */
  lemma TwoMarkers(st: State, one: string, oneKey: string, two: string, twoKey: string)
    requires st.current.Some? && st.buf == "" && '\r' !in one && '\r' !in two
    requires MarkerKey(one, AllowBuiltin(st.current)) == Some(oneKey)
    requires MarkerKey(two, AllowBuiltin(Some(oneKey))) == Some(twoKey)
    ensures Flush(StepLines(st, [one, two])).result == st.result + [(st.current.value, "")] + [(oneKey, "")] + [(twoKey, "")]
  {
    OneMarker(st, one, oneKey);
    var next := StepLine(st, one);
    OneMarker(next, two, twoKey);
    StepOne(next, two);
    assert [one, two][1..] == [two];
    NoText(twoKey);
  }

  lemma OneMarker(st: State, line: string, key: string)
    requires st.current.Some? && st.buf == "" && '\r' !in line
    requires MarkerKey(line, AllowBuiltin(st.current)) == Some(key)
    ensures StepLine(st, line) == State(Some(key), "", st.result + [(st.current.value, "")])
  {
    WithoutCr(line);
    NoText(st.current.value);
  }

  lemma NoText(key: string)
    ensures SectionText(key, "") == ""
  {
  }

  lemma NamedMarkerLines(before: string, name: string, after: string)
    requires NewlineEnded(before)
    ensures SplitTerminator(before + CustomCmdMarker(name) + "\n" + after) ==
            SplitTerminator(before) + [CustomCmdMarker(name)] + SplitTerminator(after)
  {
    var marker := CustomCmdMarker(name);
    var head := SplitTerminator(before);
    MarkersAreLines(name);
    UnlinesSplitTerminator(before);
    UnlinesAppend(head, [marker]);
    assert Unlines([marker]) == marker + "\n";
    assert before + marker + "\n" + after == Unlines(head + [marker]) + after;
    SplitTerminatorUnlines(head + [marker], after);
  }

  /** A named custom marker closes the open section and bars built-in markers. */
  lemma StepMarker(st: State, name: string)
    requires name != ""
    ensures var entered := StepLine(st, CustomCmdMarker(name));
            && entered == Flush(st).(current := Some(CustomResultKey(name)))
            && IsCustom(CustomResultKey(name))
  {
    var marker := CustomCmdMarker(name);
    MarkersAreLines(name);
    WithoutCr(marker);
    PrintedMarkers(name);
    CustomResultNameOfKey(name);
  }

  ghost predicate AllBuiltin(r: seq<Segment>) {
    forall i :: 0 <= i < |r| ==> !IsCustom(r[i].0)
  }

  ghost predicate BuiltinsThenCustoms(r: seq<Segment>) {
    forall i, j :: 0 <= i < j < |r| && !IsCustom(r[j].0) ==> !IsCustom(r[i].0)
  }

  /** What is closed so far, with the open section, is built-ins then customs, and a
      built-in section is only ever open after nothing but built-ins. */
  ghost predicate Ordered(st: State) {
    && BuiltinsThenCustoms(Flush(st).result)
    && (AllowBuiltin(st.current) ==> AllBuiltin(st.result))
  }

  lemma OrderedOpens(st: State, key: string)
    requires Ordered(st)
    requires IsCustom(key) || AllowBuiltin(st.current)
    ensures Ordered(Flush(st).(current := Some(key)))
  {
    var next := Flush(st).(current := Some(key));
    if !IsCustom(key) {
      assert AllBuiltin(Flush(st).result);
    }
    assert Flush(next).result == Flush(st).result + [(key, SectionText(key, next.buf))];
  }

  lemma OrderedBuffers(st: State, buf: string)
    requires Ordered(st) && st.current.Some?
    ensures Ordered(st.(buf := buf))
  {
    var r, n := Flush(st).result, Flush(st.(buf := buf)).result;
    assert |r| == |n| && forall i :: 0 <= i < |r| ==> r[i].0 == n[i].0;
  }

  lemma OrderedStep(st: State, line: string)
    requires Ordered(st)
    requires CustomKey(WithoutSuffix(line, "\r")) != Some(CustomResultKey(""))
    ensures Ordered(StepLine(st, line))
  {
    var l := WithoutSuffix(line, "\r");
    var key := MarkerKey(l, AllowBuiltin(st.current));
    if key.Some? {
      if !IsCustom(key.value) {
        UnnamedIsOnlyOpenKey(l, AllowBuiltin(st.current));
      }
      OrderedOpens(st, key.value);
    } else if st.current.Some? {
      OrderedBuffers(st, st.buf + l + "\n");
    }
  }

  /** A marker that opens a built-in section is a built-in one where those are allowed,
      or a custom one without a name. */
  lemma UnnamedIsOnlyOpenKey(line: string, allowBuiltin: bool)
    requires MarkerKey(line, allowBuiltin).Some? && !IsCustom(MarkerKey(line, allowBuiltin).value)
    ensures allowBuiltin || CustomKey(line) == Some(CustomResultKey(""))
  {
    if !allowBuiltin {
      CustomKeyIff(line, CustomKey(line).value);
      var name :| line == CustomCmdMarker(name) && CustomKey(line).value == CustomResultKey(name);
      CustomResultNameOfKey(name);
    }
  }

  lemma {:induction false} OrderedSteps(st: State, lines: seq<string>)
    requires Ordered(st) && NoUnnamed(lines)
    ensures Ordered(StepLines(st, lines))
    decreases |lines|
  {
    if lines != [] {
      OrderedStep(st, lines[0]);
      OrderedSteps(StepLine(st, lines[0]), lines[1..]);
    }
  }

  /** The list is built-ins then customs in every output without an unnamed custom marker. */
  lemma SegmentsOrdered(raw: string)
    requires NoUnnamed(SplitTerminator(raw))
    ensures BuiltinsThenCustoms(ParseSegments(raw))
  {
    OrderedSteps(START, SplitTerminator(raw));
  }

  // ---------- The map form ----------

  /** The text of the first segment with this key. */
  function FirstText(segments: seq<Segment>, key: string): Option<string> {
    if segments == [] then None
    else if segments[0].0 == key then Some(segments[0].1)
    else FirstText(segments[1..], key)
  }

  lemma {:induction false} FirstTextAppend(a: seq<Segment>, b: seq<Segment>, key: string)
    ensures FirstText(a + b, key) == if FirstText(a, key).Some? then FirstText(a, key) else FirstText(b, key)
  {
    if a == [] {
      assert a + b == b;
    } else {
      assert (a + b)[1..] == a[1..] + b;
      FirstTextAppend(a[1..], b, key);
    }
  }

  method ParseScriptOutput(raw: string) returns (m: map<string, string>)
    ensures forall key :: (if key in m then Some(m[key]) else None) == FirstText(ParseSegments(raw), key)
  {
    var segments := ParseScriptSegments(raw);
    m := map[];
    for i := 0 to |segments|
      invariant forall key :: (if key in m then Some(m[key]) else None) == FirstText(segments[..i], key)
    {
      var (k, v) := segments[i];
      assert segments[..i + 1] == segments[..i] + [segments[i]];
      forall key
        ensures FirstText(segments[..i + 1], key) ==
                if FirstText(segments[..i], key).Some? then FirstText(segments[..i], key)
                else if k == key then Some(v) else None
      {
        FirstTextAppend(segments[..i], [segments[i]], key);
        assert FirstText([segments[i]], key) == if k == key then Some(v) else FirstText([], key);
      }
      if k !in m {
        m := m[k := v];
      }
    }
    assert segments[..|segments|] == segments;
  }

  lemma {:induction false} NoFirstText(segments: seq<Segment>, key: string)
    requires forall i :: 0 <= i < |segments| ==> segments[i].0 != key
    ensures FirstText(segments, key).None?
  {
    if segments != [] {
      NoFirstText(segments[1..], key);
    }
  }

  /** So no built-in lookup depends on anything after a named custom marker. */
  lemma BuiltinLookupsIsolated(before: string, name: string, after: string, key: string)
    requires NewlineEnded(before) && name != "" && !IsCustom(key)
    requires NoUnnamed(SplitTerminator(after))
    ensures FirstText(ParseSegments(before + CustomCmdMarker(name) + "\n" + after), key) ==
            FirstText(ParseSegments(before), key)
  {
    BuiltinsIsolated(before, name, after);
    var all, kept := ParseSegments(before + CustomCmdMarker(name) + "\n" + after), ParseSegments(before);
    assert all == kept + all[|kept|..];
    FirstTextAppend(kept, all[|kept|..], key);
    NoFirstText(all[|kept|..], key);
  }

  // ---------- Telling a sample from noise ----------

  predicate ContainsScriptSegment(raw: string) {
    exists line :: line in Split(raw) && MarkerKey(WithoutSuffix(line, "\r"), true).Some?
  }

  lemma {:induction false} OpenSectionIsKept(st: State, lines: seq<string>)
    requires st.current.Some?
    ensures Flush(StepLines(st, lines)).result != []
    decreases |lines|
  {
    if lines != [] {
      OpenSectionIsKept(StepLine(st, lines[0]), lines[1..]);
    }
  }

  lemma {:induction false} FirstMarkerOpens(lines: seq<string>)
    ensures Flush(StepLines(START, lines)).result != [] <==> !NoMarkers(lines, true)
  {
    if lines != [] {
      var line := WithoutSuffix(lines[0], "\r");
      if MarkerKey(line, true).Some? {
        OpenSectionIsKept(StepLine(START, lines[0]), lines[1..]);
      } else {
        FirstMarkerOpens(lines[1..]);
        if !NoMarkers(lines, true) {
          var k :| 0 <= k < |lines| && MarkerKey(WithoutSuffix(lines[k], "\r"), true).Some?;
          assert lines[1..][k - 1] == lines[k];
        }
      }
    }
  }

  /** The cheap test accepts exactly the texts the parser finds a section in. */
  lemma ContainsIffParsed(raw: string)
    ensures ContainsScriptSegment(raw) <==> ParseSegments(raw) != []
  {
    FirstMarkerOpens(SplitTerminator(raw));
    SplitVersusTerminator(raw);
    EmptyLineIsData();
    NoMarkersIn(SplitTerminator(raw));
    NoMarkersIn(Split(raw));
    assert NoMarkers([""], true);
  }

  lemma EmptyLineIsData()
    ensures MarkerKey(WithoutSuffix("", "\r"), true).None?
  {
    assert WithoutSuffix("", "\r") == "";
  }

  lemma NoMarkersIn(lines: seq<string>)
    ensures !NoMarkers(lines, true) <==> exists line :: line in lines && MarkerKey(WithoutSuffix(line, "\r"), true).Some?
    ensures NoMarkers(lines + [""], true) <==> NoMarkers(lines, true)
  {
    EmptyLineIsData();
    var more := lines + [""];
    assert forall k :: 0 <= k < |lines| ==> more[k] == lines[k];
  }
}
