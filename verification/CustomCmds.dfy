/** The custom commands as files in a directory: what is accepted, what is written for a
    set of commands, and how the directory reads back. */
module CustomCmds {
  import opened Wrappers
  import opened Text
  import opened FileNames
  import Utf8

  datatype Cmd = Cmd(name: string, cmd: string)

  /** A directory entry: a regular file with its bytes, or anything else. */
  datatype Node = File(content: seq<byte>) | Other

  type Dir = map<string, Node>

  const MAX_NAME_LEN := 64

  // ---------- Validation ----------

  predicate Acceptable(c: Cmd) {
    c.name != "" && Trim(c.name) == c.name && |Utf8.Encode(c.name)| <= 64 && Trim(c.cmd) != ""
  }

  ghost predicate NoDuplicates(cmds: seq<Cmd>) {
    forall i, j :: 0 <= i < j < |cmds| ==> cmds[i].name != cmds[j].name
  }

  ghost predicate Allowed(cmds: seq<Cmd>) {
    (forall i :: 0 <= i < |cmds| ==> Acceptable(cmds[i])) && NoDuplicates(cmds)
  }

  datatype Invalid = EmptyName | LongName | PaddedName | DuplicateName | EmptyCommand

  /** What is wrong with command `i`. */
  ghost predicate Because(cmds: seq<Cmd>, i: nat, why: Invalid)
    requires i < |cmds|
  {
    match why
    case EmptyName => Trim(cmds[i].name) == ""
    case LongName => |Utf8.Encode(Trim(cmds[i].name))| > 64
    case PaddedName => Trim(cmds[i].name) != cmds[i].name
    case DuplicateName => exists k :: 0 <= k < i && cmds[k].name == cmds[i].name
    case EmptyCommand => Trim(cmds[i].cmd) == ""
  }

  /** Accepts exactly the allowed sets, and otherwise points at the first command that
      breaks the set it completes, and says why. */
  method Validate(cmds: seq<Cmd>) returns (r: Result<(), (nat, Invalid)>)
    ensures r.Ok? <==> Allowed(cmds)
    ensures r.Err? ==> r.error.0 < |cmds| && Allowed(cmds[..r.error.0]) && !Allowed(cmds[..r.error.0 + 1])
    ensures r.Err? ==> Because(cmds, r.error.0, r.error.1)
  {
    var seen: set<string> := {};
    for i := 0 to |cmds|
      invariant Allowed(cmds[..i])
      invariant seen == set k | 0 <= k < i :: cmds[k].name
    {
      AllowedGrows(cmds, i);
      var name := Trim(cmds[i].name);
      if name == "" {
        return Err((i, EmptyName));
      }
      if |Utf8.Encode(name)| > MAX_NAME_LEN {
        return Err((i, LongName));
      }
      if name != cmds[i].name {
        return Err((i, PaddedName));
      }
      if name in seen {
        return Err((i, DuplicateName));
      }
      seen := seen + {name};
      if Trim(cmds[i].cmd) == "" {
        return Err((i, EmptyCommand));
      }
    }
    assert cmds[..|cmds|] == cmds;
    r := Ok(());
  }

  /** What one more command has to be for the set to stay allowed. */
  lemma AllowedGrows(cmds: seq<Cmd>, i: nat)
    requires i < |cmds|
    ensures Allowed(cmds[..i + 1]) <==>
            Allowed(cmds[..i]) && Acceptable(cmds[i]) && forall k :: 0 <= k < i ==> cmds[k].name != cmds[i].name
    ensures Allowed(cmds) ==> Allowed(cmds[..i + 1])
  {
    var now, next := cmds[..i], cmds[..i + 1];
    assert next == now + [cmds[i]];
    DistinctGrows(now, cmds[i]);
    assert forall k :: 0 <= k < |next| ==> next[k] == cmds[k];
  }

  lemma DistinctGrows(cmds: seq<Cmd>, c: Cmd)
    ensures NoDuplicates(cmds + [c]) <==> NoDuplicates(cmds) && forall k :: 0 <= k < |cmds| ==> cmds[k].name != c.name
  {
    var next := cmds + [c];
    assert forall k :: 0 <= k < |cmds| ==> next[k] == cmds[k];
    assert next[|cmds|] == c;
  }

  /** A name padded with white space is refused, and its length is that of what is inside. */
  lemma PaddedRefused(a: string, name: string, b: string, cmd: string)
    requires AllSpace(a) && AllSpace(b) && Unpadded(name)
    ensures Acceptable(Cmd(a + name + b, cmd)) <==>
            a == "" && b == "" && 0 < |Utf8.Encode(name)| <= 64 && !AllSpace(cmd)
  {
    TrimIs(a, name, b);
    var before, after := Padding(cmd);
    assert Trim(cmd) == "" ==> cmd == before + after;
    assert Trim(cmd) != "" ==> cmd[|before|] == Trim(cmd)[0];
    assert a + name + b == name ==> |a| == 0 && |b| == 0;
    assert a == "" && b == "" ==> a + name + b == name;
  }

  // ---------- Writing ----------

  /** The order of the command at a position, in 32-bit arithmetic that wraps around. */
  function OrderOf(i: nat): nat {
    (i + 1) % (U32_MAX + 1) * CUSTOM_CMD_ORDER_STEP % (U32_MAX + 1)
  }

  lemma SmallOrder(i: nat)
    requires i < 1_0000
    ensures OrderOf(i) == (i + 1) * 100
  {
  }

  /** The order wraps around where 32 bits do, and so repeats every 2^30 positions. */
  lemma OrderWraps(i: nat)
    ensures OrderOf(i) == (i + 1) * 100 % 0x1_0000_0000
    ensures OrderOf(i + 0x4000_0000) == OrderOf(i)
  {
    RemainderTimes(i + 1);
    RemainderTimes(i + 0x4000_0000 + 1);
    RemainderOnly((i + 1) * 100, 25);
  }

  lemma RemainderTimes(n: nat)
    ensures n % 0x1_0000_0000 * 100 % 0x1_0000_0000 == n * 100 % 0x1_0000_0000
  {
    var q, r := n / 0x1_0000_0000, n % 0x1_0000_0000;
    assert n * 100 == r * 100 + 0x1_0000_0000 * (q * 100);
    RemainderOnly(r * 100, q * 100);
  }

  lemma {:induction false} RemainderOnly(n: nat, k: nat)
    ensures (n + 0x1_0000_0000 * k) % 0x1_0000_0000 == n % 0x1_0000_0000
  {
    if k > 0 {
      RemainderOnly(n, k - 1);
    }
  }

  function FileOf(cmds: seq<Cmd>, i: nat, system: System): string
    requires i < |cmds|
  {
    CustomCmdFileName(OrderOf(i), cmds[i].name) + CustomCmdFileExt(system)
  }

  function FileSeq(cmds: seq<Cmd>, system: System): (r: seq<string>)
    ensures |r| == |cmds|
  {
    seq(|cmds|, i requires 0 <= i < |cmds| => FileOf(cmds, i, system))
  }

  function NodeSeq(cmds: seq<Cmd>): (r: seq<Node>)
    ensures |r| == |cmds|
  {
    seq(|cmds|, i requires 0 <= i < |cmds| => File(Utf8.Encode(cmds[i].cmd)))
  }

  /** The directory after writing each name in turn. */
  function WriteAll(names: seq<string>, nodes: seq<Node>): Dir
    requires |names| == |nodes|
  {
    if names == [] then map[]
    else WriteAll(names[..|names| - 1], nodes[..|names| - 1])[names[|names| - 1] := nodes[|names| - 1]]
  }

  function FilesOf(cmds: seq<Cmd>, system: System): Dir {
    WriteAll(FileSeq(cmds, system), NodeSeq(cmds))
  }

  /** Commands share a file exactly when they have one name and one order; so two of an
      allowed set never do, though orders repeat once they wrap around. */
  lemma FilesDiffer(cmds: seq<Cmd>, i: nat, j: nat, system: System)
    requires i < |cmds| && j < |cmds|
    ensures FileOf(cmds, i, system) == FileOf(cmds, j, system) <==> cmds[i].name == cmds[j].name && OrderOf(i) == OrderOf(j)
  {
    FileNameRoundTrip(OrderOf(i), cmds[i].name);
    FileNameRoundTrip(OrderOf(j), cmds[j].name);
    FileNameSplits(OrderOf(i), cmds[i].name, CustomCmdFileExt(system));
    FileNameSplits(OrderOf(j), cmds[j].name, CustomCmdFileExt(system));
    PaddedIsNumber(OrderOf(i));
    PaddedIsNumber(OrderOf(j));
  }

  ghost predicate Distinct(names: seq<string>) {
    forall i, j :: 0 <= i < j < |names| ==> names[i] != names[j]
  }

  lemma {:induction false} WrittenAt(names: seq<string>, nodes: seq<Node>, i: nat)
    requires |names| == |nodes| && i < |names| && Distinct(names)
    ensures names[i] in WriteAll(names, nodes) && WriteAll(names, nodes)[names[i]] == nodes[i]
    decreases |names|
  {
    var n := |names| - 1;
    if i < n {
      WrittenAt(names[..n], nodes[..n], i);
    }
  }

  lemma {:induction false} WrittenFrom(names: seq<string>, nodes: seq<Node>, file: string)
    requires |names| == |nodes| && file in WriteAll(names, nodes)
    ensures file in names
    decreases |names|
  {
    var n := |names| - 1;
    if file != names[n] {
      WrittenFrom(names[..n], nodes[..n], file);
    }
  }

  lemma FileSeqDistinct(cmds: seq<Cmd>, system: System)
    requires NoDuplicates(cmds)
    ensures Distinct(FileSeq(cmds, system))
  {
    forall i, j | 0 <= i < j < |cmds|
      ensures FileOf(cmds, i, system) != FileOf(cmds, j, system)
    {
      FilesDiffer(cmds, i, j, system);
    }
  }

  // ---------- Reading ----------

  /** A file that counts as a command on this platform. */
  predicate Shown(dir: Dir, system: System, file: string) {
    && file in dir && dir[file].File?
    && CustomCmdNameFromFileFor(system, file).Some?
    && Utf8.Decode(dir[file].content).Some?
  }

  function CmdIn(dir: Dir, system: System, file: string): Cmd
    requires Shown(dir, system, file)
  {
    Cmd(CustomCmdNameFromFileFor(system, file).value, Utf8.Decode(dir[file].content).value)
  }

  ghost predicate Sorted(files: seq<string>) {
    forall i, j :: 0 <= i < j < |files| ==> Before(files[i], files[j])
  }

  /** The shown files of a directory, in name order. */
  ghost predicate IsListing(dir: Dir, system: System, files: seq<string>) {
    && Sorted(files)
    && (forall f :: f in files <==> Shown(dir, system, f))
  }

  function CmdsIn(dir: Dir, system: System, files: seq<string>): (cmds: seq<Cmd>)
    requires forall f :: f in files ==> Shown(dir, system, f)
    ensures |cmds| == |files|
  {
    seq(|files|, i requires 0 <= i < |files| => CmdIn(dir, system, files[i]))
  }

  function Insert(file: string, files: seq<string>): seq<string> {
    if files == [] || Before(file, files[0]) then [file] + files
    else [files[0]] + Insert(file, files[1..])
  }

  function SortByName(files: seq<string>): seq<string> {
    if files == [] then [] else Insert(files[0], SortByName(files[1..]))
  }

  lemma {:induction false} InsertSorted(file: string, files: seq<string>)
    requires Sorted(files) && file !in files
    ensures Sorted(Insert(file, files))
    ensures forall f :: f in Insert(file, files) <==> f == file || f in files
  {
    if files == [] {
    } else if Before(file, files[0]) {
      forall j | 0 <= j < |files|
        ensures Before(file, files[j])
      {
        if j > 0 {
          BeforeTransitive(file, files[0], files[j]);
        }
      }
    } else {
      BeforeTotal(file, files[0]);
      var rest := files[1..];
      assert forall i :: 0 <= i < |rest| ==> rest[i] == files[i + 1];
      InsertSorted(file, rest);
      var r := Insert(file, rest);
      forall j | 0 <= j < |r|
        ensures Before(files[0], r[j])
      {
        assert r[j] in r;
      }
      assert forall f :: f in files <==> f == files[0] || f in rest;
    }
  }

  lemma {:induction false} SortSorts(files: seq<string>)
    requires forall i, j :: 0 <= i < j < |files| ==> files[i] != files[j]
    ensures Sorted(SortByName(files))
    ensures forall f :: f in SortByName(files) <==> f in files
  {
    if files != [] {
      SortSorts(files[1..]);
      assert files[0] !in files[1..];
      InsertSorted(files[0], SortByName(files[1..]));
      assert forall f :: f in files <==> f == files[0] || f in files[1..];
    }
  }

  /** What goes wrong while a directory is read: it cannot be opened, some entries cannot
      be delivered or examined, and some files cannot be read. */
  datatype Trouble = Trouble(closed: bool, broken: set<string>, unreadable: set<string>)

  /** Reads the directory, if there is one, whatever order its entries are delivered in.
      A directory or an entry in trouble fails the whole; a file that cannot be read is
      passed over like one that is not text. */
  method ReadDir(found: Option<Dir>, io: Trouble, system: System) returns (r: Result<seq<Cmd>, ()>)
    ensures r.Err? <==> found.Some? && (io.closed || found.value.Keys * io.broken != {})
    ensures found.None? ==> r == Ok([])
    ensures found.Some? && r.Ok? ==>
              exists files :: IsListing(found.value - io.unreadable, system, files)
                              && r.value == CmdsIn(found.value - io.unreadable, system, files)
  {
    if found.None? {
      return Ok([]);
    }
    if io.closed {
      return Err(());
    }
    var shown := ShownFiles(found.value, io, system);
    if shown.Err? {
      return Err(());
    }
    SortSorts(shown.value);
    var sorted := SortByName(shown.value);
    assert IsListing(found.value - io.unreadable, system, sorted);
    r := Ok(CmdsIn(found.value - io.unreadable, system, sorted));
  }

  /** The loop over the entries; whatever is not a command is skipped. */
  method ShownFiles(dir: Dir, io: Trouble, system: System) returns (r: Result<seq<string>, ()>)
    ensures r.Err? <==> dir.Keys * io.broken != {}
    ensures r.Ok? ==> forall f :: f in r.value <==> Shown(dir - io.unreadable, system, f)
    ensures r.Ok? ==> forall i, j :: 0 <= i < j < |r.value| ==> r.value[i] != r.value[j]
  {
    var found: seq<string>;
    var todo := dir.Keys;
    found := [];
    while todo != {}
      invariant todo <= dir.Keys
      invariant dir.Keys * io.broken <= todo
      invariant forall f :: f in found <==> f !in todo && Shown(dir - io.unreadable, system, f)
      invariant forall i, j :: 0 <= i < j < |found| ==> found[i] != found[j]
      decreases todo
    {
      var file :| file in todo;
      todo := todo - {file};
      if file in io.broken {
        assert file in dir.Keys * io.broken;
        return Err(());
      }
      if !dir[file].File? {
        continue;
      }
      if CustomCmdNameFromFileFor(system, file).None? {
        continue;
      }
      if file in io.unreadable || Utf8.Decode(dir[file].content).None? {
        continue;
      }
      found := found + [file];
    }
    r := Ok(found);
  }

  /** A directory has one listing, so the order entries are delivered in cannot matter. */
  lemma {:induction false} SortedUnique(a: seq<string>, b: seq<string>)
    requires Sorted(a) && Sorted(b)
    requires forall f :: f in a <==> f in b
    ensures a == b
    decreases |a|
  {
    assert b != [] ==> b[0] in b;
    if a != [] {
      assert a[0] in a && a[0] in b;
      assert b[0] in b && b[0] in a;
      SortedFirst(a, b[0]);
      SortedFirst(b, a[0]);
      BeforeExclusive(a[0], b[0]);
      SortedTail(a);
      SortedTail(b);
      SortedUnique(a[1..], b[1..]);
    }
  }

  lemma SortedFirst(a: seq<string>, f: string)
    requires Sorted(a) && f in a
    ensures f == a[0] || Before(a[0], f)
  {
  }

  lemma BeforeExclusive(a: string, b: string)
    ensures !(Before(a, b) && Before(b, a))
  {
    if Before(a, b) && Before(b, a) {
      BeforeTransitive(a, b, a);
      BeforeIrreflexive(a);
    }
  }

  lemma SortedTail(a: seq<string>)
    requires Sorted(a) && a != []
    ensures Sorted(a[1..])
    ensures forall f :: f in a[1..] <==> f in a && f != a[0]
  {
    var t := a[1..];
    assert forall i :: 0 <= i < |t| ==> t[i] == a[i + 1];
    BeforeIrreflexive(a[0]);
  }

  // ---------- Replace, then list ----------

  lemma FileShown(cmds: seq<Cmd>, i: nat, system: System)
    requires NoDuplicates(cmds) && i < |cmds|
    ensures var dir := FilesOf(cmds, system);
            Shown(dir, system, FileOf(cmds, i, system)) && CmdIn(dir, system, FileOf(cmds, i, system)) == cmds[i]
  {
    FileSeqDistinct(cmds, system);
    WrittenAt(FileSeq(cmds, system), NodeSeq(cmds), i);
    FileNameRoundTrip(OrderOf(i), cmds[i].name);
    Utf8.DecodeEncode(cmds[i].cmd);
  }

  lemma FilesShown(cmds: seq<Cmd>, system: System)
    requires NoDuplicates(cmds)
    ensures forall f :: f in FileSeq(cmds, system) <==> Shown(FilesOf(cmds, system), system, f)
  {
    var dir, files := FilesOf(cmds, system), FileSeq(cmds, system);
    forall f | f in files
      ensures Shown(dir, system, f)
    {
      var i :| 0 <= i < |files| && files[i] == f;
      FileShown(cmds, i, system);
    }
    forall f | Shown(dir, system, f)
      ensures f in files
    {
      WrittenFrom(files, NodeSeq(cmds), f);
    }
  }

  lemma FilesSorted(cmds: seq<Cmd>, system: System)
    requires |cmds| <= 999
    ensures Sorted(FileSeq(cmds, system))
  {
    var files := FileSeq(cmds, system);
    forall i, j | 0 <= i < j < |files|
      ensures Before(files[i], files[j])
    {
      SmallOrder(i);
      SmallOrder(j);
      OrdersSort(OrderOf(i), OrderOf(j), cmds[i].name, cmds[j].name, CustomCmdFileExt(system));
    }
  }

  /** When a listing gives the commands back in order, it lists the files in the order
      they were written: a name belongs to one file only. */
  lemma ListedInOrder(cmds: seq<Cmd>, system: System, files: seq<string>)
    requires NoDuplicates(cmds)
    requires IsListing(FilesOf(cmds, system), system, files)
    requires CmdsIn(FilesOf(cmds, system), system, files) == cmds
    ensures files == FileSeq(cmds, system)
  {
    FilesShown(cmds, system);
    forall i | 0 <= i < |files|
      ensures files[i] == FileSeq(cmds, system)[i]
    {
      assert CmdsIn(FilesOf(cmds, system), system, files)[i] == CmdIn(FilesOf(cmds, system), system, files[i]);
      assert files[i] in FileSeq(cmds, system);
      var k :| 0 <= k < |cmds| && files[i] == FileSeq(cmds, system)[k];
      SameCommand(cmds, system, k, i);
    }
  }

  /** Two positions whose files read as the same command are the same position. */
  lemma SameCommand(cmds: seq<Cmd>, system: System, k: nat, i: nat)
    requires NoDuplicates(cmds) && i < |cmds| && k < |cmds|
    ensures Shown(FilesOf(cmds, system), system, FileOf(cmds, k, system))
    ensures CmdIn(FilesOf(cmds, system), system, FileOf(cmds, k, system)) == cmds[i] ==> k == i
  {
    FileShown(cmds, k, system);
  }

  lemma TooManyUnsorted(cmds: seq<Cmd>, system: System)
    requires |cmds| >= 1000
    ensures !Sorted(FileSeq(cmds, system))
  {
    SmallOrder(998);
    SmallOrder(999);
    OrdersStopSorting(cmds[998].name, cmds[999].name, CustomCmdFileExt(system));
    var files := FileSeq(cmds, system);
    assert files[998] == FileOf(cmds, 998, system) && files[999] == FileOf(cmds, 999, system);
  }

  /** Writing a set and listing it gives the same commands in the same order exactly
      when there are at most 999 of them. */
  lemma ListAfterReplace(cmds: seq<Cmd>, system: System, files: seq<string>)
    requires NoDuplicates(cmds)
    requires IsListing(FilesOf(cmds, system), system, files)
    ensures CmdsIn(FilesOf(cmds, system), system, files) == cmds <==> |cmds| <= 999
  {
    var dir := FilesOf(cmds, system);
    FilesShown(cmds, system);
    if |cmds| <= 999 {
      FilesSorted(cmds, system);
      SortedUnique(files, FileSeq(cmds, system));
      forall i | 0 <= i < |cmds|
        ensures CmdsIn(dir, system, files)[i] == cmds[i]
      {
        FileShown(cmds, i, system);
      }
    } else {
      TooManyUnsorted(cmds, system);
      if CmdsIn(dir, system, files) == cmds {
        ListedInOrder(cmds, system, files);
      }
    }
  }

  /** A thousand commands, called by their numbers. */
  function Thousand(): seq<Cmd> {
    seq(1000, i requires 0 <= i < 1000 => Cmd(Decimal(i), "x"))
  }

  /** They are accepted, and read back in another order. */
  lemma ThousandComeBackOtherwise(system: System, files: seq<string>)
    requires IsListing(FilesOf(Thousand(), system), system, files)
    ensures Allowed(Thousand()) && CmdsIn(FilesOf(Thousand(), system), system, files) != Thousand()
  {
    var cmds := Thousand();
    forall i | 0 <= i < |cmds|
      ensures Acceptable(cmds[i])
    {
      NumberAcceptable(i);
    }
    forall i, j | 0 <= i < j < |cmds|
      ensures cmds[i].name != cmds[j].name
    {
      DecimalIsNumber(i);
      DecimalIsNumber(j);
    }
    ListAfterReplace(cmds, system, files);
  }

  lemma NumberAcceptable(i: nat)
    requires i < 1000
    ensures Acceptable(Cmd(Decimal(i), "x"))
  {
    var name := Decimal(i);
    DecimalIsNumber(i);
    DecimalLength(i);
    DigitsEncoded(name);
    TrimNothing(name);
    TrimNothing("x");
  }

  /** A digit is one byte. */
  lemma {:induction false} DigitsEncoded(s: string)
    requires AllDigits(s)
    ensures |Utf8.Encode(s)| == |s|
  {
    if s != "" {
      DigitsEncoded(s[1..]);
    }
  }
}
