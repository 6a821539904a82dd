/** Which files of a directory are custom commands, and of what name. */
module FileNameReading {
  import opened Wrappers
  import opened Text
  import opened Markers
  import opened FileNames

  /** A number, an underscore and the encoding of the name. */
  ghost predicate NamedBy(fileName: string, digits: string, name: string) {
    digits != "" && AllDigits(digits) && fileName == digits + "_" + EncodeMarkerName(name)
  }

  ghost predicate Named(fileName: string, name: string) {
    exists digits :: NamedBy(fileName, digits, name)
  }

  /** What follows the underscore reads as the name it is the encoding of, and as no other. */
  lemma EncodedNameIff(encoded: string, name: string)
    ensures DecodeMarkerName(ENCODED_NAME_PREFIX + encoded) == Some(name) <==> encoded == EncodeMarkerName(name)
  {
    NameRoundTrip(name);
    if DecodeMarkerName(ENCODED_NAME_PREFIX + encoded) == Some(name) {
      NameCanonical(ENCODED_NAME_PREFIX + encoded);
      AfterPrefix(encoded, EncodeMarkerName(name));
    }
  }

  lemma AfterPrefix(a: string, b: string)
    requires ENCODED_NAME_PREFIX + a == ENCODED_NAME_PREFIX + b
    ensures a == b
  {
    assert (ENCODED_NAME_PREFIX + a)[|ENCODED_NAME_PREFIX|..] == a;
    assert (ENCODED_NAME_PREFIX + b)[|ENCODED_NAME_PREFIX|..] == b;
  }

  lemma SplitNamed(base: string, digits: string, name: string)
    requires NamedBy(base, digits, name)
    ensures SplitOnce(base, '_') == Some((digits, EncodeMarkerName(name)))
  {
    assert '_' !in digits && digits + "_" == digits + ['_'];
    SplitOnceAt(digits, '_', EncodeMarkerName(name));
  }

  lemma SplitRejoined(s: string, c: char)
    requires SplitOnce(s, c).Some?
    ensures s == SplitOnce(s, c).value.0 + [c] + SplitOnce(s, c).value.1
  {
    var i := IndexOf(s, c);
    assert s == s[..i] + [s[i]] + s[i + 1..];
  }

  /** A file has a name if and only if it is so named, with or without one `.ps1`. */
  lemma NameFromFileIff(fileName: string, name: string)
    ensures CustomCmdNameFromFile(fileName) == Some(name) <==> Named(WithoutSuffix(fileName, ".ps1"), name)
  {
    var base := WithoutSuffix(fileName, ".ps1");
    if CustomCmdNameFromFile(fileName) == Some(name) {
      SplitRejoined(base, '_');
      EncodedNameIff(SplitOnce(base, '_').value.1, name);
      assert NamedBy(base, SplitOnce(base, '_').value.0, name);
    }
    if digits :| NamedBy(base, digits, name) {
      SplitNamed(base, digits, name);
      EncodedNameIff(EncodeMarkerName(name), name);
    }
  }

  /** And it is this platform's if and only if it has the platform's extension: `.ps1` on
      Windows, anything else elsewhere. */
  lemma NameForIff(system: System, fileName: string, name: string)
    ensures CustomCmdNameFromFileFor(system, fileName) == Some(name) <==>
            (EndsWith(fileName, ".ps1") <==> system.Windows?)
            && Named(WithoutSuffix(WithoutSuffix(fileName, ".ps1"), ".ps1"), name)
  {
    NameFromFileIff(WithoutSuffix(fileName, ".ps1"), name);
    NameFromFileIff(fileName, name);
  }
}
