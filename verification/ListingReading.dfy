/** What the parser of a listing makes of any text at all: which lines are the listing and
    which of them are entries. */
module ListingReading {
  import opened Wrappers
  import opened Text
  import opened FileNames
  import opened Listing
  import opened FileNameReading
  import Base64
  import Markers
  import Utf8

  /** A file name without a space, a space, and the command in base64, with white space
      around that at most; the file's number is the order. */
  ghost predicate EntryText(line: string, e: Entry, file: string, encoded: string, digits: string) {
    && ' ' !in file && line == file + " " + encoded
    && NamedBy(WithoutSuffix(file, ".ps1"), digits, e.name) && NumberOf(digits) == e.order <= 0xFFFF_FFFF
    && Trim(encoded) == Base64.Encode(Base64.Standard, Utf8.Encode(e.cmd))
  }

  ghost predicate IsEntry(line: string, e: Entry) {
    exists file, encoded, digits :: EntryText(line, e, file, encoded, digits)
  }

  lemma FileSplits(file: string, digits: string, name: string)
    requires NamedBy(WithoutSuffix(file, ".ps1"), digits, name)
    ensures SplitOnce(file, '_').Some? && SplitOnce(file, '_').value.0 == digits
    ensures forall order :: ParseU32(digits) == Some(order) <==> NumberOf(digits) == order <= 0xFFFF_FFFF
  {
    var base := WithoutSuffix(file, ".ps1");
    var ext := file[|base|..];
    assert file == base + ext;
    assert '_' !in digits && file == digits + ['_'] + (Markers.EncodeMarkerName(name) + ext);
    SplitOnceAt(digits, '_', Markers.EncodeMarkerName(name) + ext);
  }

  lemma TextIff(encoded: string, cmd: string)
    ensures (Base64.Decode(Base64.Standard, encoded).Some?
             && Utf8.Decode(Base64.Decode(Base64.Standard, encoded).value) == Some(cmd)) <==>
            encoded == Base64.Encode(Base64.Standard, Utf8.Encode(cmd))
  {
    Base64.DecodeEncode(Base64.Standard, Utf8.Encode(cmd));
    Utf8.DecodeEncode(cmd);
    if Base64.Decode(Base64.Standard, encoded).Some? {
      Base64.EncodeDecode(Base64.Standard, encoded);
      var bytes := Base64.Decode(Base64.Standard, encoded).value;
      if Utf8.Decode(bytes).Some? {
        Utf8.EncodeDecode(bytes);
      }
    }
  }

  /** A line is an entry if and only if it is written like one. */
  lemma EntryIff(line: string, e: Entry)
    ensures ParseEntry(line) == Some(e) <==> IsEntry(line, e)
  {
    if ParseEntry(line) == Some(e) {
      EntryWritten(line, e);
    }
    if file, encoded, digits :| EntryText(line, e, file, encoded, digits) {
      EntryRead(line, e, file, encoded, digits);
    }
  }

  lemma EntryWritten(line: string, e: Entry)
    requires ParseEntry(line) == Some(e)
    ensures IsEntry(line, e)
  {
    SplitRejoined(line, ' ');
    var (file, encoded) := SplitOnce(line, ' ').value;
    NameFromFileIff(file, e.name);
    var digits :| NamedBy(WithoutSuffix(file, ".ps1"), digits, e.name);
    FileSplits(file, digits, e.name);
    TextIff(Trim(encoded), e.cmd);
    assert EntryText(line, e, file, encoded, digits);
  }

  lemma EntryRead(line: string, e: Entry, file: string, encoded: string, digits: string)
    requires EntryText(line, e, file, encoded, digits)
    ensures ParseEntry(line) == Some(e)
  {
    SplitsAtSpace(line, file, encoded);
    NameFromFileIff(file, e.name);
    FileSplits(file, digits, e.name);
    TextIff(Trim(encoded), e.cmd);
    PartsRead(line, file, encoded, e);
  }

  lemma SplitsAtSpace(line: string, file: string, encoded: string)
    requires ' ' !in file && line == file + " " + encoded
    ensures SplitOnce(line, ' ') == Some((file, encoded))
  {
    assert line == file + [' '] + encoded;
    SplitOnceAt(file, ' ', encoded);
  }

  lemma PartsRead(line: string, file: string, encoded: string, e: Entry)
    requires SplitOnce(line, ' ') == Some((file, encoded)) && CustomCmdNameFromFile(file) == Some(e.name)
    requires SplitOnce(file, '_').Some? && ParseU32(SplitOnce(file, '_').value.0) == Some(e.order)
    requires var bytes := Base64.Decode(Base64.Standard, Trim(encoded)); bytes.Some? && Utf8.Decode(bytes.value) == Some(e.cmd)
    ensures ParseEntry(line) == Some(e)
  {
  }

  /** The lines between the last start before the last end, when nothing after that reports
      the directory missing. */
  ghost predicate Block(lines: seq<string>, s: nat, e: nat, dir: string, end: string, missing: string) {
    && s < e < |lines| && Trim(lines[s]) == dir && Trim(lines[e]) == end
    && (forall k :: s < k < e ==> Trim(lines[k]) != dir)
    && (forall k :: e < k < |lines| ==> Trim(lines[k]) != end && Trim(lines[k]) != missing)
  }

  ghost predicate IsBlock(body: seq<string>, lines: seq<string>, dir: string, end: string, missing: string) {
    exists s: nat, e: nat :: Block(lines, s, e, dir, end, missing) && body == lines[s + 1..e]
  }

  lemma BlockIff(lines: seq<string>, body: seq<string>, dir: string, end: string, missing: string)
    requires end != missing
    ensures LastBlock(lines, dir, end, missing) == Some(body) <==> IsBlock(body, lines, dir, end, missing)
  {
    if IsBlock(body, lines, dir, end, missing) {
      var s: nat, e: nat :| Block(lines, s, e, dir, end, missing) && body == lines[s + 1..e];
      BlockFound(lines, s, e, dir, end, missing);
    }
    if LastBlock(lines, dir, end, missing) == Some(body) {
      var e := LastAt(lines, end);
      var s := LastAt(lines[..e], dir);
      assert forall k :: s < k < e ==> lines[..e][k] == lines[k];
      assert Block(lines, s, e, dir, end, missing);
    }
  }

  /** There is a listing if and only if there is such a block, and it is that block's
      entries. */
  lemma ListingIff(lines: seq<string>, entries: seq<Entry>)
    ensures ListingOf(lines) == Some(entries) <==>
            exists body :: IsBlock(body, lines, DIR_MARKER, DIR_END_MARKER, DIR_MISSING_MARKER) && entries == ParseEntries(body)
  {
    MarkersApart();
    forall body
      ensures LastBlock(lines, DIR_MARKER, DIR_END_MARKER, DIR_MISSING_MARKER) == Some(body) <==>
              IsBlock(body, lines, DIR_MARKER, DIR_END_MARKER, DIR_MISSING_MARKER)
    {
      BlockIff(lines, body, DIR_MARKER, DIR_END_MARKER, DIR_MISSING_MARKER);
    }
  }

  /** A line that is no entry adds none, and one that is adds its own in its place. */
  lemma {:induction false} EntriesAround(before: seq<string>, line: string, after: seq<string>)
    ensures forall e :: IsEntry(line, e) ==>
              ParseEntries(before + [line] + after) == ParseEntries(before) + [e] + ParseEntries(after)
    ensures (forall e :: !IsEntry(line, e)) ==>
              ParseEntries(before + [line] + after) == ParseEntries(before) + ParseEntries(after)
  {
    EntriesAppend(before + [line], after);
    EntriesAppend(before, [line]);
    assert [line][1..] == [] && ParseEntries([]) == [];
    forall e
      ensures ParseEntry(line) == Some(e) <==> IsEntry(line, e)
    {
      EntryIff(line, e);
    }
    match ParseEntry(line)
    case None =>
      assert ParseEntries([line]) == [];
      assert ParseEntries(before) + [] == ParseEntries(before);
    case Some(e) =>
      assert ParseEntries([line]) == [e];
  }

  lemma {:induction false} EntriesAppend(a: seq<string>, b: seq<string>)
    ensures ParseEntries(a + b) == ParseEntries(a) + ParseEntries(b)
  {
    if a == [] {
      assert a + b == b;
    } else {
      assert (a + b)[1..] == a[1..] + b;
      EntriesAppend(a[1..], b);
    }
  }
}
