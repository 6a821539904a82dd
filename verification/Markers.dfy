/** Segment markers: the lines that open a section of script output. */
module Markers {
  import opened Wrappers
  import opened Text
  import Base64
  import Utf8

  const SEPARATOR := "SrvBoxSep"
  const CUSTOM_CMD_SEPARATOR := "SrvBoxCusCmdSep"
  const ENCODED_NAME_PREFIX := "b64."
  const CUSTOM_CMD_OUTPUT_PREFIX := "SrvBoxCusCmdOut."

  function EncodeMarkerName(name: string): string {
    Base64.Encode(Base64.UrlSafe, Utf8.Encode(name))
  }

  function DecodeMarkerName(encoded: string): Option<string> {
    match StripPrefix(encoded, ENCODED_NAME_PREFIX)
    case None => None
    case Some(symbols) =>
      match Base64.Decode(Base64.UrlSafe, symbols)
      case None => None
      case Some(bytes) => Utf8.Decode(bytes)
  }

  function CmdMarker(key: string): string {
    SEPARATOR + "." + (ENCODED_NAME_PREFIX + EncodeMarkerName(key))
  }

  function CustomCmdMarker(name: string): string {
    CUSTOM_CMD_SEPARATOR + "." + (ENCODED_NAME_PREFIX + EncodeMarkerName(name))
  }

  /** The key a custom command's output is filed under. */
  function CustomResultKey(name: string): string {
    CUSTOM_CMD_SEPARATOR + "." + name
  }

  function CustomResultName(key: string): Option<string> {
    match StripPrefix(key, CUSTOM_CMD_SEPARATOR)
    case None => None
    case Some(rest) =>
      match StripPrefix(rest, ".")
      case None => None
      case Some(name) => if name != "" then Some(name) else None
  }

  function BuiltinKey(line: string): Option<string> {
    match StripPrefix(line, SEPARATOR + ".")
    case None => None
    case Some(encoded) => DecodeMarkerName(encoded)
  }

  function CustomKey(line: string): Option<string> {
    match StripPrefix(line, CUSTOM_CMD_SEPARATOR + ".")
    case None => None
    case Some(encoded) =>
      match DecodeMarkerName(encoded)
      case None => None
      case Some(name) => Some(CustomResultKey(name))
  }

  /** The section a line opens, or None when it is data. */
  function MarkerKey(line: string, allowBuiltin: bool): Option<string> {
    if allowBuiltin && BuiltinKey(line).Some? then BuiltinKey(line) else CustomKey(line)
  }

  lemma NameRoundTrip(name: string)
    ensures DecodeMarkerName(ENCODED_NAME_PREFIX + EncodeMarkerName(name)) == Some(name)
  {
    var s := ENCODED_NAME_PREFIX + EncodeMarkerName(name);
    assert s[|ENCODED_NAME_PREFIX|..] == EncodeMarkerName(name);
    Base64.DecodeEncode(Base64.UrlSafe, Utf8.Encode(name));
    Utf8.DecodeEncode(name);
  }

  /** Each name has one encoded form: anything else is refused. */
  lemma NameCanonical(encoded: string)
    requires DecodeMarkerName(encoded).Some?
    ensures encoded == ENCODED_NAME_PREFIX + EncodeMarkerName(DecodeMarkerName(encoded).value)
  {
    var symbols := encoded[|ENCODED_NAME_PREFIX|..];
    Base64.EncodeDecode(Base64.UrlSafe, symbols);
    Utf8.EncodeDecode(Base64.Decode(Base64.UrlSafe, symbols).value);
  }

  lemma PrefixSplits(prefix: string, rest: string)
    ensures StripPrefix(prefix + rest, prefix) == Some(rest)
  {
  }

  /** A line is a built-in marker exactly when the script would print it for that key. */
  lemma BuiltinKeyIff(line: string, key: string)
    ensures BuiltinKey(line) == Some(key) <==> line == CmdMarker(key)
  {
    var prefix := SEPARATOR + ".";
    if BuiltinKey(line) == Some(key) {
      NameCanonical(line[|prefix|..]);
      assert line == prefix + line[|prefix|..];
    }
    if line == CmdMarker(key) {
      PrefixSplits(prefix, ENCODED_NAME_PREFIX + EncodeMarkerName(key));
      NameRoundTrip(key);
    }
  }

  /** The same for custom commands. */
  lemma CustomKeyIff(line: string, key: string)
    ensures CustomKey(line) == Some(key) <==>
            exists name :: line == CustomCmdMarker(name) && key == CustomResultKey(name)
  {
    var prefix := CUSTOM_CMD_SEPARATOR + ".";
    if CustomKey(line) == Some(key) {
      var encoded := line[|prefix|..];
      NameCanonical(encoded);
      assert line == prefix + encoded;
      var name := DecodeMarkerName(encoded).value;
      assert line == CustomCmdMarker(name) && key == CustomResultKey(name);
    }
    forall name | line == CustomCmdMarker(name) && key == CustomResultKey(name)
      ensures CustomKey(line) == Some(key)
    {
      PrefixSplits(prefix, ENCODED_NAME_PREFIX + EncodeMarkerName(name));
      NameRoundTrip(name);
    }
  }

  /** The two marker families are apart. */
  lemma FamiliesApart(line: string)
    ensures BuiltinKey(line).Some? ==> CustomKey(line).None?
  {
    if BuiltinKey(line).Some? {
      assert (SEPARATOR + ".")[6] == 'S' == line[6];
      assert (CUSTOM_CMD_SEPARATOR + ".")[6] == 'C';
    }
  }

  lemma CustomResultNameOfKey(name: string)
    ensures CustomResultName(CustomResultKey(name)) == if name != "" then Some(name) else None
  {
    var key := CustomResultKey(name);
    assert key == CUSTOM_CMD_SEPARATOR + ("." + name);
    PrefixSplits(CUSTOM_CMD_SEPARATOR, "." + name);
    PrefixSplits(".", name);
  }

  /** Markers the script prints are recognised as themselves. */
  lemma PrintedMarkers(name: string)
    ensures MarkerKey(CmdMarker(name), true) == Some(name)
    ensures forall allow :: MarkerKey(CustomCmdMarker(name), allow) == Some(CustomResultKey(name))
  {
    BuiltinKeyIff(CmdMarker(name), name);
    CustomKeyIff(CustomCmdMarker(name), CustomResultKey(name));
    FamiliesApart(CustomCmdMarker(name));
  }

  /** The line a custom command's encoded output is printed on is never a marker. */
  lemma OutputLineIsData(encoded: string, allowBuiltin: bool)
    ensures MarkerKey(CUSTOM_CMD_OUTPUT_PREFIX + encoded, allowBuiltin).None?
  {
    var line := CUSTOM_CMD_OUTPUT_PREFIX + encoded;
    assert line[6] == 'C' && line[12] == 'O';
    assert (SEPARATOR + ".")[6] == 'S';
    assert (CUSTOM_CMD_SEPARATOR + ".")[12] == 'S';
  }

  /** Markers are single lines without a carriage return. */
  lemma MarkersAreLines(name: string)
    ensures forall c :: c in CmdMarker(name) || c in CustomCmdMarker(name) ==> c != '\n' && c != '\r'
  {
    Base64.EncodeAlphabet(Base64.UrlSafe, Utf8.Encode(name));
  }
}
