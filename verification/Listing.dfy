/** Reading back the listing of the custom-command directory that a script printed. */
module Listing {
  import opened Wrappers
  import opened Text
  import opened FileNames
  import opened Markers
  import Base64
  import Utf8

  const DIR_MARKER := "SrvBoxCusCmdDir"
  const DIR_END_MARKER := "SrvBoxCusCmdDirEnd"
  const DIR_MISSING_MARKER := "SrvBoxCusCmdDirMissing"

  datatype Entry = Entry(order: nat, name: string, cmd: string)

  function StripCr(lines: seq<string>): (r: seq<string>)
    ensures |r| == |lines|
  {
    seq(|lines|, i requires 0 <= i < |lines| => WithoutSuffix(lines[i], "\r"))
  }

  /** `rposition`: the last line that reads as `marker`, or -1. */
  function LastAt(lines: seq<string>, marker: string): (i: int)
    ensures -1 <= i < |lines|
    ensures i >= 0 ==> Trim(lines[i]) == marker
    ensures forall k :: i < k < |lines| ==> Trim(lines[k]) != marker
  {
    if lines == [] then -1
    else if Trim(lines[|lines| - 1]) == marker then |lines| - 1
    else LastAt(lines[..|lines| - 1], marker)
  }

  function ParseEntry(line: string): Option<Entry> {
    match SplitOnce(line, ' ')
    case None => None
    case Some((file, encoded)) =>
      match (CustomCmdNameFromFile(file), SplitOnce(file, '_'), Base64.Decode(Base64.Standard, Trim(encoded)))
      case (Some(name), Some((digits, _)), Some(bytes)) =>
        (match (ParseU32(digits), Utf8.Decode(bytes))
         case (Some(order), Some(cmd)) => Some(Entry(order, name, cmd))
         case _ => None)
      case _ => None
  }

  function ParseEntries(lines: seq<string>): seq<Entry> {
    if lines == [] then []
    else
      match ParseEntry(lines[0])
      case None => ParseEntries(lines[1..])
      case Some(e) => [e] + ParseEntries(lines[1..])
  }

  /** The lines of the last listing, for these three markers. */
  function LastBlock(lines: seq<string>, dir: string, end: string, missing: string): Option<seq<string>> {
    var lastEnd := LastAt(lines, end);
    if LastAt(lines, missing) > lastEnd || lastEnd < 0 then None
    else
      var start := LastAt(lines[..lastEnd], dir);
      if start < 0 then None else Some(lines[start + 1..lastEnd])
  }

  function ListingOf(lines: seq<string>): Option<seq<Entry>> {
    match LastBlock(lines, DIR_MARKER, DIR_END_MARKER, DIR_MISSING_MARKER)
    case None => None
    case Some(body) => Some(ParseEntries(body))
  }

  function ParseListing(raw: string): Option<seq<Entry>> {
    ListingOf(StripCr(Split(raw)))
  }

  method ParseCustomCmdsListing(raw: string) returns (listing: Option<seq<Entry>>)
    ensures listing == ParseListing(raw)
  {
    var lines := StripCr(Split(raw));
    var lastEnd := LastAt(lines, DIR_END_MARKER);
    var lastMissing := LastAt(lines, DIR_MISSING_MARKER);
    if lastMissing >= 0 && (lastEnd < 0 || lastMissing > lastEnd) {
      return None;
    }
    if lastEnd < 0 {
      return None;
    }
    var start := LastAt(lines[..lastEnd], DIR_MARKER);
    if start < 0 {
      return None;
    }
    var out := ReadEntries(lines[start + 1..lastEnd]);
    listing := Some(out);
  }

  /** The loop over the lines of the listing; those that are not entries are skipped. */
  method ReadEntries(body: seq<string>) returns (out: seq<Entry>)
    ensures out == ParseEntries(body)
  {
    out := [];
    for i := 0 to |body|
      invariant out + ParseEntries(body[i..]) == ParseEntries(body)
    {
      EntriesFrom(out, body, i);
      var entry := ParseEntry(body[i]);
      if entry.Some? {
        out := out + [entry.value];
      }
    }
    assert out + ParseEntries(body[|body|..]) == out;
  }

  lemma EntriesFrom(out: seq<Entry>, body: seq<string>, i: nat)
    requires i < |body|
    ensures out + ParseEntries(body[i..]) ==
            match ParseEntry(body[i])
            case None => out + ParseEntries(body[i + 1..])
            case Some(e) => (out + [e]) + ParseEntries(body[i + 1..])
  {
    assert body[i..][0] == body[i] && body[i..][1..] == body[i + 1..];
  }

  // ---------- What the script prints ----------

  function PrintEntry(e: Entry, system: System): string {
    CustomCmdFileName(e.order, e.name) + CustomCmdFileExt(system) + " " +
    Base64.Encode(Base64.Standard, Utf8.Encode(e.cmd))
  }

  function EntryLines(entries: seq<Entry>, system: System): seq<string> {
    if entries == [] then [] else [PrintEntry(entries[0], system)] + EntryLines(entries[1..], system)
  }

  function ListingLines(entries: seq<Entry>, system: System): seq<string> {
    [DIR_MARKER] + EntryLines(entries, system) + [DIR_END_MARKER]
  }

  function WithEol(lines: seq<string>, cr: bool): (r: seq<string>)
    ensures |r| == |lines|
  {
    seq(|lines|, i requires 0 <= i < |lines| => lines[i] + (if cr then "\r" else ""))
  }

  /** The printed listing, with LF or CRLF line ends. */
  function PrintListing(entries: seq<Entry>, system: System, cr: bool): string {
    Unlines(WithEol(ListingLines(entries, system), cr))
  }

  /** Free of line ends. */
  predicate OneLine(s: string) {
    forall j :: 0 <= j < |s| ==> s[j] != '\n' && s[j] != '\r'
  }

  predicate AllOneLine(lines: seq<string>) {
    forall k :: 0 <= k < |lines| ==> OneLine(lines[k])
  }

  // ---------- Entries ----------

  lemma TrimKeepsFirst(s: string)
    requires s != "" && !IsSpace(s[0])
    ensures Trim(s) != "" && Trim(s)[0] == s[0]
  {
    TrimEndKeepsFirst(s);
  }

  lemma {:induction false} TrimEndKeepsFirst(s: string)
    requires s != "" && !IsSpace(s[0])
    ensures TrimEnd(s) != "" && TrimEnd(s)[0] == s[0]
  {
    if IsSpace(s[|s| - 1]) {
      TrimEndKeepsFirst(s[..|s| - 1]);
    }
  }

  /** Printed entries are lines of their own that no marker is mistaken for. */
  lemma EntryLineShape(e: Entry, system: System)
    ensures OneLine(PrintEntry(e, system))
    ensures Trim(PrintEntry(e, system)) != "" && Trim(PrintEntry(e, system))[0] != 'S'
  {
    var file := CustomCmdFileName(e.order, e.name);
    var ext := CustomCmdFileExt(system);
    var encoded := Base64.Encode(Base64.Standard, Utf8.Encode(e.cmd));
    var line := PrintEntry(e, system);
    FileNameCharacters(e.order, e.name);
    Base64.EncodeAlphabet(Base64.Standard, Utf8.Encode(e.cmd));
    forall k | 0 <= k < |line|
      ensures line[k] != '\n' && line[k] != '\r'
    {
      if k < |file| {
        assert line[k] == file[k];
      } else if k < |file| + |ext| {
        assert line[k] == ext[k - |file|];
      } else if k > |file| + |ext| {
        assert line[k] == encoded[k - |file| - |ext| - 1];
      }
    }
    PaddedIsNumber(e.order);
    assert line[0] == Padded(e.order)[0];
    TrimKeepsFirst(line);
  }

  lemma FileHasNoSpace(e: Entry, system: System)
    ensures ' ' !in CustomCmdFileName(e.order, e.name) + CustomCmdFileExt(system)
  {
    var name := CustomCmdFileName(e.order, e.name);
    FileNameCharacters(e.order, e.name);
    assert ' ' !in name by {
      assert forall k :: 0 <= k < |name| ==> FileCharacter(name[k]);
      assert !FileCharacter(' ');
    }
  }

  lemma EncodedText(text: string)
    ensures Base64.Decode(Base64.Standard, Trim(Base64.Encode(Base64.Standard, Utf8.Encode(text)))) == Some(Utf8.Encode(text))
    ensures Utf8.Decode(Utf8.Encode(text)) == Some(text)
  {
    EncodedHasNoSpace(Utf8.Encode(text));
    Base64.DecodeEncode(Base64.Standard, Utf8.Encode(text));
    Utf8.DecodeEncode(text);
  }

  lemma EncodedHasNoSpace(bytes: seq<byte>)
    ensures Trim(Base64.Encode(Base64.Standard, bytes)) == Base64.Encode(Base64.Standard, bytes)
  {
    var s := Base64.Encode(Base64.Standard, bytes);
    Base64.EncodeAlphabet(Base64.Standard, bytes);
    assert forall c :: Base64.InAlphabet(Base64.Standard, c) ==> !IsSpace(c);
    TrimNothing(s);
  }

  lemma FileText(e: Entry, system: System)
    requires e.order <= U32_MAX
    ensures var file := CustomCmdFileName(e.order, e.name) + CustomCmdFileExt(system);
            && CustomCmdNameFromFile(file) == Some(e.name)
            && SplitOnce(file, '_').Some?
            && ParseU32(SplitOnce(file, '_').value.0) == Some(e.order)
  {
    FileNameRoundTrip(e.order, e.name);
    FileNameSplits(e.order, e.name, CustomCmdFileExt(system));
    assert CustomCmdFileName(e.order, e.name) + "" == CustomCmdFileName(e.order, e.name);
  }

  lemma EntryRoundTrip(e: Entry, system: System)
    requires e.order <= U32_MAX
    ensures ParseEntry(PrintEntry(e, system)) == Some(e)
  {
    var file := CustomCmdFileName(e.order, e.name) + CustomCmdFileExt(system);
    var encoded := Base64.Encode(Base64.Standard, Utf8.Encode(e.cmd));
    FileHasNoSpace(e, system);
    assert PrintEntry(e, system) == file + [' '] + encoded;
    SplitOnceAt(file, ' ', encoded);
    FileText(e, system);
    EncodedText(e.cmd);
  }

  ghost predicate Orders32(entries: seq<Entry>) {
    forall i :: 0 <= i < |entries| ==> entries[i].order <= U32_MAX
  }

  lemma {:induction false} EntriesRoundTrip(entries: seq<Entry>, system: System)
    requires Orders32(entries)
    ensures ParseEntries(EntryLines(entries, system)) == entries
  {
    if entries != [] {
      EntriesRoundTrip(entries[1..], system);
      ParsePrintedEntry(entries[0], system, EntryLines(entries[1..], system));
      assert entries == [entries[0]] + entries[1..];
    }
  }

  lemma ParsePrintedEntry(e: Entry, system: System, rest: seq<string>)
    requires e.order <= U32_MAX
    ensures ParseEntries([PrintEntry(e, system)] + rest) == [e] + ParseEntries(rest)
  {
    EntryRoundTrip(e, system);
    ParseEntriesCons(PrintEntry(e, system), rest, e);
  }

  lemma ParseEntriesCons(line: string, rest: seq<string>, e: Entry)
    requires ParseEntry(line) == Some(e)
    ensures ParseEntries([line] + rest) == [e] + ParseEntries(rest)
  {
    assert ([line] + rest)[1..] == rest;
  }

  /** Every printed entry is one line, and not a start marker. */
  lemma {:induction false} EntryLinesShape(entries: seq<Entry>, system: System)
    ensures Quiet(EntryLines(entries, system), DIR_MARKER)
    ensures AllOneLine(EntryLines(entries, system))
  {
    if entries != [] {
      EntryLineShape(entries[0], system);
      MarkersApart();
      EntryLinesShape(entries[1..], system);
      ShapeCons(PrintEntry(entries[0], system), EntryLines(entries[1..], system), DIR_MARKER);
    }
  }

  lemma ShapeCons(line: string, rest: seq<string>, marker: string)
    requires OneLine(line) && Trim(line) != marker
    requires Quiet(rest, marker) && AllOneLine(rest)
    ensures Quiet([line] + rest, marker) && AllOneLine([line] + rest)
  {
  }

  // ---------- The listing in noise ----------

  lemma LastAtIs(lines: seq<string>, marker: string, i: int)
    requires 0 <= i < |lines| && Trim(lines[i]) == marker
    requires forall k :: i < k < |lines| ==> Trim(lines[k]) != marker
    ensures LastAt(lines, marker) == i
  {
  }

  /** Later lines that close or deny a listing. */
  ghost predicate Quiet(lines: seq<string>, marker: string) {
    forall k :: 0 <= k < |lines| ==> Trim(lines[k]) != marker
  }

  lemma MarkersTrim()
    ensures Trim(DIR_MARKER) == DIR_MARKER && Trim(DIR_END_MARKER) == DIR_END_MARKER
    ensures Trim(DIR_MISSING_MARKER) == DIR_MISSING_MARKER
  {
    TrimNothing(DIR_MARKER);
    TrimNothing(DIR_END_MARKER);
    TrimNothing(DIR_MISSING_MARKER);
  }

  /** The three markers read as themselves and not as one another. */
  lemma MarkersApart()
    ensures DIR_MARKER != DIR_END_MARKER && DIR_MARKER != DIR_MISSING_MARKER && DIR_END_MARKER != DIR_MISSING_MARKER
    ensures DIR_MARKER[0] == DIR_END_MARKER[0] == DIR_MISSING_MARKER[0] == 'S'
  {
    assert |DIR_MARKER| == 15 && |DIR_END_MARKER| == 18 && |DIR_MISSING_MARKER| == 22;
  }

  /** A block between its own start and end lines, with no start line inside and no end
      or missing line after it, is what the parser reads. */
  lemma BlockFound(lines: seq<string>, s: nat, e: nat, dir: string, end: string, missing: string)
    requires end != missing && s < e < |lines|
    requires Trim(lines[s]) == dir && Trim(lines[e]) == end
    requires forall k :: s < k < e ==> Trim(lines[k]) != dir
    requires forall k :: e < k < |lines| ==> Trim(lines[k]) != end && Trim(lines[k]) != missing
    ensures LastBlock(lines, dir, end, missing) == Some(lines[s + 1..e])
  {
    LastAtIs(lines, end, e);
    LastAtIs(lines[..e], dir, s);
  }

  lemma BlockInNoise(before: seq<string>, first: string, body: seq<string>, last: string, after: seq<string>,
                     dir: string, end: string, missing: string)
    requires end != missing && Trim(first) == dir && Trim(last) == end
    requires Quiet(body, dir) && Quiet(after, end) && Quiet(after, missing)
    ensures LastBlock(before + ([first] + body + [last]) + after, dir, end, missing) == Some(body)
  {
    var lines := before + ([first] + body + [last]) + after;
    var s, e := |before|, |before| + 1 + |body|;
    assert lines[s] == first && lines[e] == last;
    assert forall k :: e < k < |lines| ==> lines[k] == after[k - e - 1];
    assert forall k :: s < k < e ==> lines[k] == body[k - s - 1];
    BlockFound(lines, s, e, dir, end, missing);
    assert lines[s + 1..e] == body;
  }

  lemma ListingInLines(before: seq<string>, entries: seq<Entry>, system: System, after: seq<string>)
    requires Orders32(entries)
    requires Quiet(after, DIR_END_MARKER) && Quiet(after, DIR_MISSING_MARKER)
    ensures ListingOf(before + ListingLines(entries, system) + after) == Some(entries)
  {
    MarkersTrim();
    MarkersApart();
    EntryLinesShape(entries, system);
    BlockInNoise(before, DIR_MARKER, EntryLines(entries, system), DIR_END_MARKER, after,
                 DIR_MARKER, DIR_END_MARKER, DIR_MISSING_MARKER);
    EntriesRoundTrip(entries, system);
  }

  /** Splitting a text that is whole lines up to some point. */
  lemma SplitPrinted(before: string, lines: seq<string>, cr: bool, after: string)
    requires before == "" || before[|before| - 1] == '\n'
    requires AllOneLine(lines)
    ensures StripCr(Split(before + Unlines(WithEol(lines, cr)) + after)) ==
            StripCr(SplitTerminator(before)) + lines + StripCr(Split(after))
  {
    var head, sent := SplitTerminator(before), WithEol(lines, cr);
    forall k | 0 <= k < |lines|
      ensures '\n' !in sent[k]
    {
      SentLine(lines[k], cr);
    }
    UnlinesSplitTerminator(before);
    UnlinesAppend(head, sent);
    SplitUnlines(head + sent, after);
    StripCrAppend(head + sent, Split(after));
    StripCrAppend(head, sent);
    StripCrSent(lines, cr);
  }

  lemma SentLine(line: string, cr: bool)
    requires OneLine(line)
    ensures var sent := line + (if cr then "\r" else ""); '\n' !in sent && WithoutSuffix(sent, "\r") == line
  {
    var sent := line + (if cr then "\r" else "");
    EndsWithChar(sent, '\r');
    if cr {
      assert sent[..|sent| - 1] == line;
    } else {
      assert sent == line;
    }
  }

  lemma StripCrAppend(a: seq<string>, b: seq<string>)
    ensures StripCr(a + b) == StripCr(a) + StripCr(b)
  {
  }

  lemma StripCrSent(lines: seq<string>, cr: bool)
    requires AllOneLine(lines)
    ensures StripCr(WithEol(lines, cr)) == lines
  {
    forall k | 0 <= k < |lines|
      ensures StripCr(WithEol(lines, cr))[k] == lines[k]
    {
      SentLine(lines[k], cr);
    }
  }

  lemma ListingLinesShape(entries: seq<Entry>, system: System)
    ensures AllOneLine(ListingLines(entries, system))
  {
    EntryLinesShape(entries, system);
    MarkersOneLine();
    Enclosed(DIR_MARKER, EntryLines(entries, system), DIR_END_MARKER);
  }

  lemma MarkersOneLine()
    ensures OneLine(DIR_MARKER) && OneLine(DIR_END_MARKER)
  {
  }

  lemma Enclosed(first: string, body: seq<string>, last: string)
    requires OneLine(first) && AllOneLine(body) && OneLine(last)
    ensures AllOneLine([first] + body + [last])
  {
  }

  /** A printed listing parses back to exactly its entries, whatever whole lines come
      before it, earlier listings among them, and whatever follows it that neither
      closes a listing nor reports a missing one. */
  lemma ListingRoundTrip(before: string, entries: seq<Entry>, system: System, cr: bool, after: string)
    requires before == "" || before[|before| - 1] == '\n'
    requires Orders32(entries)
    requires Quiet(StripCr(Split(after)), DIR_END_MARKER) && Quiet(StripCr(Split(after)), DIR_MISSING_MARKER)
    ensures ParseListing(before + PrintListing(entries, system, cr) + after) == Some(entries)
  {
    ListingLinesShape(entries, system);
    SplitPrinted(before, ListingLines(entries, system), cr, after);
    ListingInLines(StripCr(SplitTerminator(before)), entries, system, StripCr(Split(after)));
  }

  /** A missing-directory report after everything else wins. */
  lemma LaterMissingWins(before: string, cr: bool, after: string)
    requires before == "" || before[|before| - 1] == '\n'
    requires Quiet(StripCr(Split(after)), DIR_END_MARKER)
    ensures ParseListing(before + Unlines(WithEol([DIR_MISSING_MARKER], cr)) + after) == None
  {
    SplitPrinted(before, [DIR_MISSING_MARKER], cr, after);
    MarkersTrim();
    MarkersApart();
    MissingLast(StripCr(SplitTerminator(before)), DIR_MISSING_MARKER, StripCr(Split(after)),
                DIR_MARKER, DIR_END_MARKER, DIR_MISSING_MARKER);
  }

  lemma MissingLast(before: seq<string>, line: string, after: seq<string>, dir: string, end: string, missing: string)
    requires end != missing && Trim(line) == missing && Quiet(after, end)
    ensures LastBlock(before + [line] + after, dir, end, missing) == None
  {
    var lines, m := before + [line] + after, |before|;
    assert lines[m] == line;
    assert forall k :: m < k < |lines| ==> lines[k] == after[k - m - 1];
    assert LastAt(lines, missing) >= m;
    assert LastAt(lines, end) < m;
  }
}
