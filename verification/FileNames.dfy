/** The names custom commands are stored under: `NNNNN_<encoded name>`. */
module FileNames {
  import opened Wrappers
  import opened Text
  import opened Markers
  import Base64
  import Utf8

  datatype System = Unix | Windows

  const CUSTOM_CMD_ORDER_STEP := 100
  const U32_MAX := 0xFFFF_FFFF

  function Digit(d: nat): char
    requires d < 10
  {
    (48 + d) as char
  }

  /** A number in decimal. */
  function Decimal(n: nat): (s: string)
    ensures s != ""
  {
    if n < 10 then [Digit(n)] else Decimal(n / 10) + [Digit(n % 10)]
  }

  function Zeros(k: nat): (s: string)
    ensures |s| == k
  {
    if k == 0 then "" else ['0'] + Zeros(k - 1)
  }

  /** `{order:05}`. */
  function Padded(n: nat): (s: string)
    ensures |s| >= 5
  {
    var s := Decimal(n);
    if |s| < 5 then Zeros(5 - |s|) + s else s
  }

  predicate AllDigits(s: string) {
    forall k :: 0 <= k < |s| ==> '0' <= s[k] <= '9'
  }

  function NumberOf(s: string): nat
    requires AllDigits(s)
  {
    if s == "" then 0 else NumberOf(s[..|s| - 1]) * 10 + (s[|s| - 1] as int - 48)
  }

  /** `str::parse::<u32>`, which also takes a leading plus sign. */
  function ParseU32(s: string): Option<nat> {
    var digits := if s != "" && s[0] == '+' then s[1..] else s;
    if digits != "" && AllDigits(digits) && NumberOf(digits) <= U32_MAX then Some(NumberOf(digits)) else None
  }

  function CustomCmdFileExt(system: System): string {
    if system.Windows? then ".ps1" else ""
  }

  function CustomCmdFileName(order: nat, name: string): string {
    Padded(order) + "_" + EncodeMarkerName(name)
  }

  function CustomCmdNameFromFile(fileName: string): Option<string> {
    match SplitOnce(WithoutSuffix(fileName, ".ps1"), '_')
    case None => None
    case Some((order, encoded)) =>
      if order == "" || !AllDigits(order) then None
      else DecodeMarkerName(ENCODED_NAME_PREFIX + encoded)
  }

  function CustomCmdNameFromFileFor(system: System, fileName: string): Option<string> {
    match system
    case Windows =>
      if EndsWith(fileName, ".ps1") then CustomCmdNameFromFile(WithoutSuffix(fileName, ".ps1")) else None
    case Unix =>
      if EndsWith(fileName, ".ps1") then None else CustomCmdNameFromFile(fileName)
  }

  lemma {:induction false} DecimalIsNumber(n: nat)
    ensures AllDigits(Decimal(n)) && NumberOf(Decimal(n)) == n
  {
    var s := Decimal(n);
    if n < 10 {
      assert s[..0] == "" && NumberOf("") == 0;
    } else {
      DecimalIsNumber(n / 10);
      assert s[..|s| - 1] == Decimal(n / 10);
    }
  }

  lemma {:induction false} LeadingZeros(k: nat, s: string)
    requires AllDigits(s)
    ensures AllDigits(Zeros(k) + s) && NumberOf(Zeros(k) + s) == NumberOf(s)
    decreases k + |s|
  {
    var z := Zeros(k) + s;
    if s == "" {
      assert z == Zeros(k);
      if k > 0 {
        LeadingZeros(k - 1, "");
        ZerosEnd(k);
        assert Zeros(k - 1) + "" == Zeros(k - 1);
      }
    } else {
      LeadingZeros(k, s[..|s| - 1]);
      assert z[..|z| - 1] == Zeros(k) + s[..|s| - 1];
    }
  }

  lemma {:induction false} ZerosEnd(k: nat)
    requires k > 0
    ensures Zeros(k)[..k - 1] == Zeros(k - 1) && Zeros(k)[k - 1] == '0'
  {
    if k > 1 {
      ZerosEnd(k - 1);
      assert Zeros(k)[..k - 1] == ['0'] + Zeros(k - 1)[..k - 2];
    }
  }

  lemma PaddedIsNumber(n: nat)
    ensures AllDigits(Padded(n)) && NumberOf(Padded(n)) == n
  {
    DecimalIsNumber(n);
    if |Decimal(n)| < 5 {
      LeadingZeros(5 - |Decimal(n)|, Decimal(n));
    }
  }

  /** Nothing in a file name but its extension can look like one. */
  lemma NoExtension(order: nat, name: string)
    ensures !EndsWith(CustomCmdFileName(order, name), ".ps1")
    ensures WithoutSuffix(CustomCmdFileName(order, name) + ".ps1", ".ps1") == CustomCmdFileName(order, name)
  {
    var file := CustomCmdFileName(order, name);
    FileNameCharacters(order, name);
    SuffixStart(file, ".ps1");
    assert !FileCharacter('.');
    var full := file + ".ps1";
    assert full[|full| - 4..] == ".ps1" && full[..|full| - 4] == file;
  }

  predicate FileCharacter(c: char) {
    '0' <= c <= '9' || c == '_' || Base64.InAlphabet(Base64.UrlSafe, c)
  }

  lemma FileNameCharacters(order: nat, name: string)
    ensures forall k :: 0 <= k < |CustomCmdFileName(order, name)| ==> FileCharacter(CustomCmdFileName(order, name)[k])
  {
    PaddedIsNumber(order);
    var encoded := EncodeMarkerName(name);
    Base64.EncodeAlphabet(Base64.UrlSafe, Utf8.Encode(name));
    var file := CustomCmdFileName(order, name);
    forall k | 0 <= k < |file|
      ensures FileCharacter(file[k])
    {
      var p := |Padded(order)|;
      if k < p {
        assert file[k] == Padded(order)[k];
      } else if k > p {
        assert file[k] == encoded[k - p - 1] && encoded[k - p - 1] in encoded;
      }
    }
  }

  /** The order is what stands before the first underscore, and the name what follows,
      though the encoding of a name may itself contain underscores. */
  lemma FileNameSplits(order: nat, name: string, ext: string)
    ensures SplitOnce(CustomCmdFileName(order, name) + ext, '_') == Some((Padded(order), EncodeMarkerName(name) + ext))
  {
    PaddedIsNumber(order);
    assert '_' !in Padded(order);
    assert CustomCmdFileName(order, name) + ext == Padded(order) + ['_'] + (EncodeMarkerName(name) + ext);
    SplitOnceAt(Padded(order), '_', EncodeMarkerName(name) + ext);
  }

  /** The name comes back out of the file name, with or without the extension, and the
      order with it. */
  lemma FileNameRoundTrip(order: nat, name: string)
    ensures CustomCmdNameFromFile(CustomCmdFileName(order, name)) == Some(name)
    ensures CustomCmdNameFromFile(CustomCmdFileName(order, name) + ".ps1") == Some(name)
    ensures forall system: System ::
              CustomCmdNameFromFileFor(system, CustomCmdFileName(order, name) + CustomCmdFileExt(system)) == Some(name)
    ensures order <= U32_MAX ==> ParseU32(Padded(order)) == Some(order)
  {
    var file := CustomCmdFileName(order, name);
    NoExtension(order, name);
    assert file + "" == file;
    FileNameSplits(order, name, "");
    assert EncodeMarkerName(name) + "" == EncodeMarkerName(name);
    PaddedIsNumber(order);
    NameRoundTrip(name);
    WithExtension(file);
  }

  lemma WithExtension(file: string)
    requires !EndsWith(file, ".ps1") && WithoutSuffix(file + ".ps1", ".ps1") == file
    ensures CustomCmdNameFromFile(file + ".ps1") == CustomCmdNameFromFile(file)
    ensures forall system: System ::
              CustomCmdNameFromFileFor(system, file + CustomCmdFileExt(system)) == CustomCmdNameFromFile(file)
  {
    var full := file + ".ps1";
    assert full[|full| - 4..] == ".ps1";
    assert file + "" == file;
  }

  // ---------- Order ----------

  /** Bytewise order on ASCII names, which is how the directory is sorted. */
  predicate Before(a: string, b: string) {
    b != "" && (a == "" || a[0] < b[0] || (a[0] == b[0] && Before(a[1..], b[1..])))
  }

  lemma {:induction false} BeforeTransitive(a: string, b: string, c: string)
    requires Before(a, b) && Before(b, c)
    ensures Before(a, c)
  {
    if a != "" && a[0] == b[0] == c[0] {
      BeforeTransitive(a[1..], b[1..], c[1..]);
    }
  }

  lemma {:induction false} BeforeTotal(a: string, b: string)
    ensures Before(a, b) || Before(b, a) || a == b
  {
    if a != "" && b != "" && a[0] == b[0] {
      BeforeTotal(a[1..], b[1..]);
      assert a == [a[0]] + a[1..] && b == [b[0]] + b[1..];
    }
  }

  lemma {:induction false} BeforeIrreflexive(a: string)
    ensures !Before(a, a)
  {
    if a != "" {
      BeforeIrreflexive(a[1..]);
    }
  }

  lemma {:induction false} BeforeCommonPrefix(p: string, a: string, b: string)
    requires Before(a, b)
    ensures Before(p + a, p + b)
  {
    if p == "" {
      assert p + a == a && p + b == b;
    } else {
      BeforeCommonPrefix(p[1..], a, b);
      assert (p + a)[1..] == p[1..] + a && (p + b)[1..] == p[1..] + b;
    }
  }

  /** Digit strings of one length sort as numbers, whatever follows them. */
  lemma {:induction false} DigitsSortAsNumbers(a: string, b: string, x: string, y: string)
    requires |a| == |b| && AllDigits(a) && AllDigits(b)
    requires NumberOf(a) < NumberOf(b)
    ensures Before(a + x, b + y)
    decreases |a|
  {
    var n := |a| - 1;
    var p, q := a[..n], b[..n];
    assert a + x == p + ([a[n]] + x) && b + y == q + ([b[n]] + y);
    if NumberOf(p) < NumberOf(q) {
      DigitsSortAsNumbers(p, q, [a[n]] + x, [b[n]] + y);
    } else {
      SameNumberSameDigits(p, q);
      BeforeCommonPrefix(p, [a[n]] + x, [b[n]] + y);
    }
  }

  lemma {:induction false} SameNumberSameDigits(a: string, b: string)
    requires |a| == |b| && AllDigits(a) && AllDigits(b) && NumberOf(a) == NumberOf(b)
    ensures a == b
  {
    if a != "" {
      var n := |a| - 1;
      SameNumberSameDigits(a[..n], b[..n]);
      assert a == a[..n] + [a[n]] && b == b[..n] + [b[n]];
    }
  }

  lemma {:induction false} DecimalLength(n: nat)
    ensures n < 10 ==> |Decimal(n)| == 1
    ensures 10 <= n < 100 ==> |Decimal(n)| == 2
    ensures 100 <= n < 1000 ==> |Decimal(n)| == 3
    ensures 1000 <= n < 1_0000 ==> |Decimal(n)| == 4
    ensures 1_0000 <= n < 10_0000 ==> |Decimal(n)| == 5
  {
    if n >= 10 {
      DecimalLength(n / 10);
    }
  }

  /** Orders below 100000 are five digits, so files sort in their order. */
  lemma OrdersSort(m: nat, n: nat, x: string, y: string, ext: string)
    requires m < n < 10_0000
    ensures Before(CustomCmdFileName(m, x) + ext, CustomCmdFileName(n, y) + ext)
  {
    FiveDigits(m);
    FiveDigits(n);
    PaddedIsNumber(m);
    PaddedIsNumber(n);
    DigitsSortAsNumbers(Padded(m), Padded(n), "_" + EncodeMarkerName(x) + ext, "_" + EncodeMarkerName(y) + ext);
    OrderFirst(Padded(m), "_", EncodeMarkerName(x), ext);
    OrderFirst(Padded(n), "_", EncodeMarkerName(y), ext);
  }

  lemma FiveDigits(n: nat)
    requires n < 10_0000
    ensures |Padded(n)| == 5
  {
    DecimalLength(n);
  }

  lemma OrderFirst(a: string, b: string, c: string, d: string)
    ensures (a + b + c) + d == a + (b + c + d)
  {
  }

  /** And the bound is tight: order 100000 sorts before order 99900. */
  lemma OrdersStopSorting(x: string, y: string, ext: string)
    ensures Before(CustomCmdFileName(10_0000, y) + ext, CustomCmdFileName(9_9900, x) + ext)
    ensures !Before(CustomCmdFileName(9_9900, x) + ext, CustomCmdFileName(10_0000, y) + ext)
  {
    var a, b := CustomCmdFileName(9_9900, x) + ext, CustomCmdFileName(10_0000, y) + ext;
    FirstDigits();
    assert a[0] == '9' && b[0] == '1';
  }

  lemma FirstDigits()
    ensures Padded(9_9900)[0] == '9' && Padded(10_0000)[0] == '1'
  {
    assert Decimal(9) == "9" && Decimal(99) == "99" && Decimal(999) == "999" && Decimal(9990) == "9990";
    assert Decimal(9_9900) == "99900";
    assert Decimal(1) == "1" && Decimal(10) == "10" && Decimal(100) == "100" && Decimal(1000) == "1000";
    assert Decimal(1_0000) == "10000" && Decimal(10_0000) == "100000";
  }
}
