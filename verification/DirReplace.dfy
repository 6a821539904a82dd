/** Replacing the custom-command directory so that a crash at any point loses nothing.

    Three sibling directories are involved. Every file-system call asks a fault plan what
    becomes of it: it may succeed, fail, or be where the process dies; removing a tree is
    one call a file, so it can fail or die half way, and a write can leave part of a file.
    A method that answers Crashed stopped there and then, so what its contract says of
    that outcome holds of every state a reader or the next process can find. */
module DirReplace {
  import opened Wrappers
  import opened CustomCmds
  import opened FileNames

  datatype Path = Live | Fresh | Backup

  /** What becomes of one file-system call. `done` is whether a call that was cut off had
      taken effect, or how much of a file it had written. */
  datatype Fault = Fine | Fails(done: nat) | Crashes(done: nat)

  datatype Outcome = Done | Failed | Crashed

  type Tree = map<Path, Dir>

  /** The commands a tree stands for: the directory itself, or else the backup that the
      next recovery puts back. */
  function Logical(tree: Tree): Option<Dir> {
    if Live in tree then Some(tree[Live])
    else if Backup in tree then Some(tree[Backup])
    else None
  }

  /** The first `done` bytes of a write that was cut off; none at all when it never
      opened the file. */
  function PartlyWritten(dir: Dir, name: string, node: Node, done: nat): Dir {
    if done == 0 then dir
    else if node.Other? then dir
    else dir[name := File(node.content[..if done - 1 < |node.content| then done - 1 else |node.content|])]
  }

  /** Two trees with the same content everywhere but at `p`. */
  ghost predicate SameElsewhere(a: Tree, b: Tree, p: Path) {
    forall q :: q != p ==> (q in a <==> q in b) && (q in a ==> a[q] == b[q])
  }

  /** A directory is renamed onto nothing, or onto one that is empty. */
  predicate CanRename(tree: Tree, from: Path, to: Path) {
    from in tree && (to in tree ==> tree[to] == map[])
  }

  function Renamed(tree: Tree, from: Path, to: Path): Tree
    requires from in tree
  {
    (tree - {from})[to := tree[from]]
  }

  /** Some of the files of a directory, as they were. */
  ghost predicate Within(part: Dir, whole: Dir) {
    part.Keys <= whole.Keys && forall f :: f in part ==> part[f] == whole[f]
  }

  lemma OneLess(d: Dir, file: string)
    requires file in d
    ensures |d - {file}| == |d| - 1
  {
    assert (d - {file}).Keys == d.Keys - {file};
    assert |(d - {file}).Keys| == |d.Keys| - 1;
  }

  lemma OneMoreFile(start: Dir, names: seq<string>, nodes: seq<Node>, i: nat)
    requires |names| == |nodes| && i < |names|
    ensures (start + WriteAll(names[..i], nodes[..i]))[names[i] := nodes[i]] == start + WriteAll(names[..i + 1], nodes[..i + 1])
  {
    assert names[..i + 1][..i] == names[..i] && nodes[..i + 1][..i] == nodes[..i];
  }

  /** How many calls a recovery takes when none goes wrong. */
  function RecoverCalls(tree: Tree): nat {
    if Backup !in tree then 0 else if Live !in tree then 1 else |tree[Backup]| + 1
  }

  /** What is in a fresh directory, if there is one. */
  function FreshFiles(tree: Tree): Dir {
    if Fresh in tree then tree[Fresh] else map[]
  }

  /** The set overwrites every file of a fresh directory that is already there. */
  predicate Overwrites(cmds: seq<Cmd>, system: System, tree: Tree) {
    FreshFiles(tree).Keys <= FilesOf(cmds, system).Keys
  }

  lemma {:induction false} WriteAllKeys(names: seq<string>, nodes: seq<Node>)
    requires |names| == |nodes|
    ensures forall f :: f in WriteAll(names, nodes) <==> f in names
    decreases |names|
  {
    if names != [] {
      var n := |names| - 1;
      WriteAllKeys(names[..n], nodes[..n]);
      assert names == names[..n] + [names[n]];
    }
  }

  class Store {
    const faults: nat -> Fault
    var clock: nat
    var tree: Tree

    constructor (faults: nat -> Fault, tree: Tree)
      ensures this.faults == faults && this.tree == tree && clock == 0
    {
      this.faults, this.tree, clock := faults, tree, 0;
    }

    /** The calls from `call` up to `end` do not go wrong. */
    ghost predicate FineBetween(call: nat, end: nat) {
      forall c :: call <= c < end ==> faults(c).Fine?
    }

    /** No call from this one on goes wrong. */
    ghost predicate FineFrom(call: nat) {
      forall c :: call <= c ==> faults(c).Fine?
    }

    /** From this call on, one fails and nothing else goes wrong. */
    ghost predicate OnlyFailure(call: nat, at: nat) {
      call <= at && FineBetween(call, at) && faults(at).Fails? && FineFrom(at + 1)
    }

    method Next() returns (f: Fault)
      modifies this`clock
      ensures f == faults(old(clock)) && clock == old(clock) + 1
    {
      f := faults(clock);
      clock := clock + 1;
    }

    /** `rename`: atomic, and refused onto a directory that holds anything. */
    method Rename(from: Path, to: Path) returns (r: Outcome)
      requires from != to
      modifies this
      ensures r == Failed ==> tree == old(tree)
      ensures r == Done ==> CanRename(old(tree), from, to) && tree == Renamed(old(tree), from, to)
      ensures r == Crashed ==> (tree == old(tree) || (CanRename(old(tree), from, to) && tree == Renamed(old(tree), from, to)))
      ensures clock == old(clock) + 1 && (faults(old(clock)).Fine? && CanRename(old(tree), from, to) ==> r == Done)
    {
      var f := Next();
      if !CanRename(tree, from, to) {
        return if f.Crashes? then Crashed else Failed;
      }
      match f
      case Fails(_) => r := Failed;
      case Fine =>
        tree := Renamed(tree, from, to);
        r := Done;
      case Crashes(done) =>
        if done > 0 {
          tree := Renamed(tree, from, to);
        }
        r := Crashed;
    }

    /** `remove_dir_all`: file by file, in no particular order, then the directory. A
        directory that is not there counts as removed. */
    method RemoveDirAll(p: Path) returns (r: Outcome)
      modifies this
      ensures SameElsewhere(tree, old(tree), p)
      ensures r == Done ==> p !in tree
      ensures p in tree ==> p in old(tree) && Within(tree[p], old(tree)[p])
      ensures clock >= old(clock) && (FineFrom(old(clock)) ==> r == Done)
      ensures p in old(tree) && faults(old(clock)).Fails? ==> r == Failed && tree == old(tree) && clock == old(clock) + 1
      ensures p in old(tree) && FineBetween(old(clock), old(clock) + |old(tree)[p]| + 1) ==>
                r == Done && clock == old(clock) + |old(tree)[p]| + 1
    {
      if p !in tree {
        return Done;
      }
      r := RemoveFiles(p);
      if r != Done {
        return;
      }
      var last := Next();
      match last
      case Fails(_) => r := Failed;
      case Crashes(done) =>
        if done > 0 {
          tree := tree - {p};
        }
        r := Crashed;
      case Fine =>
        tree := tree - {p};
        r := Done;
    }

    method RemoveFiles(p: Path) returns (r: Outcome)
      requires p in tree
      modifies this
      ensures p in tree && SameElsewhere(tree, old(tree), p) && Within(tree[p], old(tree)[p])
      ensures r == Done ==> tree[p] == map[]
      ensures clock >= old(clock) && (FineFrom(old(clock)) ==> r == Done)
      ensures FineBetween(old(clock), old(clock) + |old(tree)[p]|) ==> r == Done && clock == old(clock) + |old(tree)[p]|
      ensures clock == old(clock) ==> r == Done && tree == old(tree)
      ensures clock > old(clock) && faults(old(clock)).Fails? ==> r == Failed && tree == old(tree) && clock == old(clock) + 1
    {
      while tree[p] != map[]
        invariant p in tree && SameElsewhere(tree, old(tree), p) && Within(tree[p], old(tree)[p])
        invariant clock + |tree[p]| == old(clock) + |old(tree)[p]|
        invariant clock >= old(clock)
        invariant clock == old(clock) ==> tree == old(tree)
        invariant clock > old(clock) ==> faults(old(clock)).Fine?
        decreases |tree[p]|
      {
        r := RemoveFile(p);
        if r != Done {
          return;
        }
      }
      r := Done;
    }

    method RemoveFile(p: Path) returns (r: Outcome)
      requires p in tree && tree[p] != map[]
      modifies this
      ensures p in tree && SameElsewhere(tree, old(tree), p) && Within(tree[p], old(tree)[p])
      ensures clock == old(clock) + 1
      ensures r == Done <==> faults(old(clock)).Fine?
      ensures r == Done ==> |tree[p]| == |old(tree)[p]| - 1
      ensures faults(old(clock)).Fails? ==> r == Failed && tree == old(tree)
    {
      var fault := Next();
      var file :| file in tree[p];
      var rest := tree[p] - {file};
      OneLess(tree[p], file);
      match fault
      case Fails(_) => r := Failed;
      case Crashes(done) =>
        if done > 0 {
          tree := tree[p := rest];
        }
        r := Crashed;
      case Fine =>
        tree := tree[p := rest];
        r := Done;
    }

    /** `create_dir_all`: nothing to do for a directory that is there. */
    method CreateDirAll(p: Path) returns (r: Outcome)
      modifies this
      ensures SameElsewhere(tree, old(tree), p)
      ensures p in tree ==> tree[p] == if p in old(tree) then old(tree)[p] else map[]
      ensures r == Done ==> p in tree
      ensures clock == old(clock) + 1 && (FineFrom(old(clock)) ==> r == Done) && (r == Failed ==> faults(old(clock)).Fails?)
    {
      var f := Next();
      if p in tree {
        return if f.Crashes? then Crashed else Done;
      }
      match f
      case Fails(_) => r := Failed;
      case Crashes(done) =>
        if done > 0 {
          tree := tree[p := map[]];
        }
        r := Crashed;
      case Fine =>
        tree := tree[p := map[]];
        r := Done;
    }

    /** `fs::write` of one file. */
    method WriteFile(p: Path, name: string, node: Node) returns (r: Outcome)
      requires p in tree && node.File?
      modifies this
      ensures p in tree && SameElsewhere(tree, old(tree), p)
      ensures r == Done ==> tree[p] == old(tree)[p][name := node]
      ensures tree[p].Keys <= old(tree)[p].Keys + {name}
      ensures clock == old(clock) + 1 && (FineFrom(old(clock)) ==> r == Done) && (r == Failed ==> faults(old(clock)).Fails?)
    {
      var f := Next();
      match f
      case Fine =>
        tree := tree[p := tree[p][name := node]];
        r := Done;
      case Fails(done) =>
        tree := tree[p := PartlyWritten(tree[p], name, node, done)];
        r := Failed;
      case Crashes(done) =>
        tree := tree[p := PartlyWritten(tree[p], name, node, done)];
        r := Crashed;
    }

    /** Puts an interrupted replacement right. What the tree stands for is the same
        whatever happens; when it finishes, that is what the directory holds and no
        backup is left. */
    method Recover() returns (r: Outcome)
      modifies this
      ensures Logical(tree) == Logical(old(tree))
      ensures Fresh in tree <==> Fresh in old(tree)
      ensures Fresh in tree ==> tree[Fresh] == old(tree)[Fresh]
      ensures r == Done ==> Backup !in tree && (Live in tree <==> Logical(old(tree)).Some?)
      ensures clock >= old(clock) && (FineFrom(old(clock)) ==> r == Done)
      ensures FineBetween(old(clock), old(clock) + RecoverCalls(old(tree))) ==>
                r == Done && clock == old(clock) + RecoverCalls(old(tree))
    {
      if Backup !in tree {
        return Done;
      }
      if Live !in tree {
        r := Rename(Backup, Live);
      } else {
        r := RemoveDirAll(Backup);
      }
    }

    /** The clean-up after a failed step: the fresh directory goes, if it will. */
    method Abandon() returns (r: Outcome)
      modifies this
      ensures SameElsewhere(tree, old(tree), Fresh)
      ensures r != Done && clock >= old(clock)
      ensures FineFrom(old(clock)) ==> r == Failed && Fresh !in tree
      ensures Within(FreshFiles(tree), FreshFiles(old(tree)))
    {
      var cleanup := RemoveDirAll(Fresh);
      r := if cleanup == Crashed then Crashed else Failed;
    }

    /** Writes the files aside, over whatever is already there, and leaves nothing of them
        when that fails and the cleaning up does not. */
    method Prepare(names: seq<string>, nodes: seq<Node>) returns (r: Outcome)
      requires |names| == |nodes| && forall i :: 0 <= i < |nodes| ==> nodes[i].File?
      modifies this
      ensures SameElsewhere(tree, old(tree), Fresh)
      ensures r == Done ==> Fresh in tree
      ensures r == Done ==> tree[Fresh] == FreshFiles(old(tree)) + WriteAll(names, nodes)
      ensures forall f :: f in FreshFiles(tree) ==> f in FreshFiles(old(tree)) || f in names
      ensures clock >= old(clock) && (FineFrom(old(clock)) ==> r == Done)
      ensures r == Failed ==> forall at :: OnlyFailure(old(clock), at) ==> Fresh !in tree
    {
      r := CreateDirAll(Fresh);
      if r != Done {
        if r == Failed {
          r := Abandon();
        }
        return;
      }
      ghost var start := tree[Fresh];
      for i := 0 to |names|
        invariant SameElsewhere(tree, old(tree), Fresh)
        invariant Fresh in tree && tree[Fresh] == start + WriteAll(names[..i], nodes[..i])
        invariant clock >= old(clock)
        invariant forall f :: f in tree[Fresh] ==> f in FreshFiles(old(tree)) || f in names
      {
        OneMoreFile(start, names, nodes, i);
        r := WriteFile(Fresh, names[i], nodes[i]);
        if r != Done {
          if r == Failed {
            r := Abandon();
          }
          return;
        }
      }
      assert names[..|names|] == names && nodes[..|names|] == nodes;
      r := Done;
    }

    /** Moves the old directory aside and the fresh one into place, and takes the first
        step back when the second fails; after one failure the old directory is in place. */
    method Install() returns (r: Outcome, ghost installed: bool)
      requires Fresh in tree && Backup !in tree
      modifies this
      ensures Logical(tree) == if installed then Some(old(tree)[Fresh]) else Logical(old(tree))
      ensures r == Done ==> installed && Live in tree
      ensures r == Failed ==> !installed
      ensures r == Done ==> Fresh !in tree
      ensures r == Failed ==> forall at :: OnlyFailure(old(clock), at) ==> SameElsewhere(tree, old(tree), Fresh)
      ensures Within(FreshFiles(tree), FreshFiles(old(tree)))
      ensures clock >= old(clock) && (FineFrom(old(clock)) ==> r == Done)
    {
      installed := false;
      if Live in tree {
        r := Rename(Live, Backup);
        if r != Done {
          if r == Failed {
            r := Abandon();
          }
          return;
        }
        r := Rename(Fresh, Live);
        installed := Live in tree;
        if r == Failed {
          var restore := Rename(Backup, Live);
          r := if restore == Crashed then Crashed else Failed;
          installed := false;
        }
      } else {
        r := Rename(Fresh, Live);
        installed := Live in tree;
      }
    }

    /** The first call that removes the fresh directory fails, and nothing else goes wrong. */
    ghost predicate RemovalFails(call: nat, tree: Tree) {
      var first := call + RecoverCalls(tree);
      FineBetween(call, first) && faults(first).Fails? && FineFrom(first + 1)
    }

    /** Replaces the directory with `cmds`.

        `installed` is whether the rename into place happened, `stale` what the ignored
        removal of an old fresh directory left behind, and `cleared` whether that removal
        worked. Whatever the outcome, the tree stands for the new set if it was installed
        and for the old one if not; a reader that looks at the directory itself at any
        moment finds one of the two, whole, or no directory.

        What is left of a fresh directory are files it had before the call. So if the set
        overwrites all of those, it is installed as it is, whatever goes wrong. With nothing
        going wrong the call succeeds, and so it does when only the first call of that removal
        fails: then every file of the old fresh directory is left. */
    method WriteDir(cmds: seq<Cmd>, system: System)
      returns (r: Outcome, ghost installed: bool, ghost stale: Dir, ghost cleared: bool)
      modifies this
      ensures Logical(tree) == if installed then Some(stale + FilesOf(cmds, system)) else Logical(old(tree))
      ensures Live in tree ==> Some(tree[Live]) == Logical(old(tree)) || (installed && tree[Live] == stale + FilesOf(cmds, system))
      ensures Within(stale, FreshFiles(old(tree))) && (cleared ==> stale == map[])
      ensures Overwrites(cmds, system, old(tree)) ==>
                Logical(tree) == if installed then Some(FilesOf(cmds, system)) else Logical(old(tree))
      ensures forall f :: f in FreshFiles(tree) ==> f in FreshFiles(old(tree)) || f in FilesOf(cmds, system)
      ensures r == Done ==> installed && Live in tree
      ensures r == Failed ==> !installed
      ensures FineFrom(old(clock)) ==> r == Done && cleared && tree == map[Live := FilesOf(cmds, system)]
      ensures Fresh in old(tree) && RemovalFails(old(clock), old(tree)) ==> r == Done && stale == old(tree)[Fresh]
    {
      r, installed, stale, cleared := WriteFiles(FileSeq(cmds, system), NodeSeq(cmds));
      HarmlessWhenOverwritten(stale, FreshFiles(old(tree)), FilesOf(cmds, system));
      WriteAllKeys(FileSeq(cmds, system), NodeSeq(cmds));
    }

    /** The steps of a replacement, for any files. */
    method WriteFiles(names: seq<string>, nodes: seq<Node>)
      returns (r: Outcome, ghost installed: bool, ghost stale: Dir, ghost cleared: bool)
      requires |names| == |nodes| && forall i :: 0 <= i < |nodes| ==> nodes[i].File?
      modifies this
      ensures Logical(tree) == if installed then Some(stale + WriteAll(names, nodes)) else Logical(old(tree))
      ensures Live in tree ==> Some(tree[Live]) == Logical(old(tree)) || (installed && tree[Live] == stale + WriteAll(names, nodes))
      ensures Within(stale, FreshFiles(old(tree))) && (cleared ==> stale == map[])
      ensures forall f :: f in FreshFiles(tree) ==> f in FreshFiles(old(tree)) || f in names
      ensures r == Done ==> installed && Live in tree
      ensures r == Failed ==> !installed
      ensures FineFrom(old(clock)) ==> r == Done && cleared && tree == map[Live := WriteAll(names, nodes)]
      ensures Fresh in old(tree) && RemovalFails(old(clock), old(tree)) ==> r == Done && stale == old(tree)[Fresh]
    {
      installed, stale := false, map[];
      r, cleared := ClearAside();
      if r != Done {
        return;
      }
      stale := FreshFiles(tree);
      r, installed := PutInPlace(names, nodes);
      StaleIsHarmlessIff(stale, WriteAll(names, nodes));
    }

    /** Recovery, and the removal of an old fresh directory, whose failure is ignored. */
    method ClearAside() returns (r: Outcome, ghost cleared: bool)
      modifies this
      ensures Logical(tree) == Logical(old(tree)) && Within(FreshFiles(tree), FreshFiles(old(tree)))
      ensures Live in tree ==> Some(tree[Live]) == Logical(old(tree))
      ensures r == Done ==> Backup !in tree
      ensures cleared ==> FreshFiles(tree) == map[]
      ensures clock >= old(clock) && (FineFrom(old(clock)) ==> r == Done && cleared)
      ensures Fresh in old(tree) && RemovalFails(old(clock), old(tree)) ==>
                r == Done && FreshFiles(tree) == old(tree)[Fresh] && FineFrom(clock)
    {
      cleared := false;
      r := Recover();
      if r != Done {
        return;
      }
      r := RemoveDirAll(Fresh);
      if r == Crashed {
        return;
      }
      cleared := r == Done;
      r := Done;
    }

    /** The writing aside, the two renames, and the removal of the backup. */
    method PutInPlace(names: seq<string>, nodes: seq<Node>) returns (r: Outcome, ghost installed: bool)
      requires |names| == |nodes| && forall i :: 0 <= i < |nodes| ==> nodes[i].File?
      requires Backup !in tree
      modifies this
      ensures Logical(tree) == if installed then Some(FreshFiles(old(tree)) + WriteAll(names, nodes)) else Logical(old(tree))
      ensures Live in tree ==> Some(tree[Live]) == Logical(tree)
      ensures forall f :: f in FreshFiles(tree) ==> f in FreshFiles(old(tree)) || f in names
      ensures r == Done ==> installed && Live in tree
      ensures r == Failed ==> !installed
      ensures FineFrom(old(clock)) ==> r == Done && tree.Keys == {Live}
    {
      installed := false;
      r := Prepare(names, nodes);
      if r != Done {
        return;
      }
      r, installed := Install();
      if r != Done {
        return;
      }
      r := RemoveDirAll(Backup);
      if r == Failed {
        r := Done;
      }
    }
  }

  lemma HarmlessWhenOverwritten(stale: Dir, before: Dir, next: Dir)
    requires Within(stale, before)
    ensures before.Keys <= next.Keys ==> stale + next == next
  {
    StaleIsHarmlessIff(stale, next);
  }

  /** What is installed is the new set exactly when every file an ignored removal left
      behind is overwritten. */
  lemma StaleIsHarmlessIff(stale: Dir, next: Dir)
    ensures stale + next == next <==> stale.Keys <= next.Keys
  {
    assert (stale + next).Keys == stale.Keys + next.Keys;
  }

  /** And otherwise it is not: for every tree with a fresh directory in which the set does
      not overwrite everything, the fault plan that fails the first call of its removal and
      nothing else makes the call succeed and install more than the set. */
  method InstallsMore(store: Store, cmds: seq<Cmd>, system: System) returns (r: Outcome)
    requires !Overwrites(cmds, system, store.tree) && store.RemovalFails(store.clock, store.tree)
    modifies store
    ensures r == Done && Live in store.tree
    ensures store.tree[Live] == FreshFiles(old(store.tree)) + FilesOf(cmds, system) != FilesOf(cmds, system)
    ensures Logical(store.tree) != Some(FilesOf(cmds, system))
  {
    ghost var installed, stale, cleared;
    r, installed, stale, cleared := store.WriteDir(cmds, system);
    StaleIsHarmlessIff(stale, FilesOf(cmds, system));
  }

  /** So it goes for a replacement by no commands after an interrupted one with `left`, on a
      machine that has no commands yet: it installs `left`. */
  method StaleSurvives(left: seq<Cmd>, system: System) returns (store: Store, r: Outcome)
    requires left != []
    ensures fresh(store) && r == Done
    ensures Live in store.tree && store.tree[Live] == FilesOf(left, system) != FilesOf([], system)
  {
    store := new Store(c => if c == 0 then Fails(0) else Fine, map[Fresh := FilesOf(left, system)]);
    assert FilesOf([], system) == map[] && FilesOf(left, system) + map[] == FilesOf(left, system);
    assert FileSeq(left, system)[|left| - 1] in FilesOf(left, system);
    r := InstallsMore(store, [], system);
  }

  /** The set a run of replacements stands for: that of the last one installed. */
  function LastInstalled(before: Option<Dir>, sets: seq<Dir>, installed: seq<bool>): Option<Dir>
    requires |sets| == |installed|
  {
    if sets == [] then before
    else
      var n := |sets| - 1;
      if installed[n] then Some(sets[n]) else LastInstalled(before, sets[..n], installed[..n])
  }

  lemma {:induction false} LastInstalledIs(before: Option<Dir>, sets: seq<Dir>, installed: seq<bool>, k: nat)
    requires |sets| == |installed| && k <= |sets|
    requires forall i :: k <= i < |sets| ==> !installed[i]
    requires k > 0 ==> installed[k - 1]
    ensures LastInstalled(before, sets, installed) == if k > 0 then Some(sets[k - 1]) else before
  {
    var n := |sets| - 1;
    if k <= n {
      LastInstalledIs(before, sets[..n], installed[..n], k);
    }
  }

  lemma OneMore(before: Option<Dir>, sets: seq<Dir>, installed: seq<bool>, next: Dir, put: bool)
    requires |sets| == |installed|
    ensures LastInstalled(before, sets + [next], installed + [put]) ==
            if put then Some(next) else LastInstalled(before, sets, installed)
  {
    assert (sets + [next])[..|sets|] == sets && (installed + [put])[..|sets|] == installed;
  }

  function SetsOf(calls: seq<seq<Cmd>>, system: System): (r: seq<Dir>)
    ensures |r| == |calls|
  {
    seq(|calls|, i requires 0 <= i < |calls| => FilesOf(calls[i], system))
  }

  /** What is installed when `left` is still there under a set. */
  function Under(left: Dir, installed: Option<Dir>): Option<Dir> {
    match installed
    case None => None
    case Some(d) => Some(left + d)
  }

  /** All files of some sets. */
  function AllFiles(sets: seq<Dir>): set<string> {
    if sets == [] then {} else AllFiles(sets[..|sets| - 1]) + sets[|sets| - 1].Keys
  }

  /** The last call that installed its set, or 0. */
  function LastPut(installed: seq<bool>): (k: nat)
    ensures k <= |installed|
  {
    if installed == [] then 0
    else if installed[|installed| - 1] then |installed| - 1
    else LastPut(installed[..|installed| - 1])
  }

  lemma MorePut(installed: seq<bool>, put: bool)
    ensures LastPut(installed + [put]) == if put then |installed| else LastPut(installed)
  {
    assert (installed + [put])[..|installed|] == installed;
  }

  lemma MoreFiles(sets: seq<Dir>, i: nat)
    requires i < |sets|
    ensures AllFiles(sets[..i + 1]) == AllFiles(sets[..i]) + sets[i].Keys
  {
    assert sets[..i + 1][..i] == sets[..i];
  }

  /** Replacements one after another, any of them cut short anywhere, and then one
      recovery: the directory holds the set of the last replacement whose rename into place
      happened, over the files, if any, that this one could not remove before it began.
      `cleared` is whether it could; the files can only be some that the fresh directory had
      at the start or that earlier calls put there. */
  method ReplaceRun(store: Store, calls: seq<seq<Cmd>>, system: System)
    returns (r: Outcome, ghost installed: seq<bool>, ghost left: Dir, ghost cleared: bool)
    modifies store
    ensures |installed| == |calls|
    ensures Logical(store.tree) == Under(left, LastInstalled(Logical(old(store.tree)), SetsOf(calls, system), installed))
    ensures cleared ==> left == map[]
    ensures true !in installed ==> cleared
    ensures left.Keys <= FreshFiles(old(store.tree)).Keys + AllFiles(SetsOf(calls, system)[..LastPut(installed)])
    ensures Covering(SetsOf(calls, system), FreshFiles(old(store.tree)).Keys) ==>
              Logical(store.tree) == LastInstalled(Logical(old(store.tree)), SetsOf(calls, system), installed)
    ensures r == Done ==> Backup !in store.tree
    ensures r == Done ==>
      (match Under(left, LastInstalled(Logical(old(store.tree)), SetsOf(calls, system), installed))
       case Some(kept) => Live in store.tree && store.tree[Live] == kept
       case None => Live !in store.tree)
  {
    installed, left, cleared := ReplaceEach(store, calls, system);
    RecoveredExactlyIff(Logical(old(store.tree)), SetsOf(calls, system), installed, left, FreshFiles(old(store.tree)).Keys);
    r := store.Recover();
  }

  method ReplaceEach(store: Store, calls: seq<seq<Cmd>>, system: System)
    returns (ghost installed: seq<bool>, ghost left: Dir, ghost cleared: bool)
    modifies store
    ensures |installed| == |calls|
    ensures Logical(store.tree) == Under(left, LastInstalled(Logical(old(store.tree)), SetsOf(calls, system), installed))
    ensures cleared ==> left == map[]
    ensures true !in installed ==> cleared
    ensures left.Keys <= FreshFiles(old(store.tree)).Keys + AllFiles(SetsOf(calls, system)[..LastPut(installed)])
  {
    installed, left, cleared := [], map[], true;
    ghost var sets, before, started := SetsOf(calls, system), Logical(store.tree), FreshFiles(store.tree).Keys;
    UnderNothing(before);
    for i := 0 to |calls|
      invariant |installed| == i
      invariant Logical(store.tree) == Under(left, LastInstalled(before, sets[..i], installed))
      invariant cleared ==> left == map[]
      invariant !cleared ==> true in installed
      invariant LastPut(installed) <= i && left.Keys <= started + AllFiles(sets[..LastPut(installed)])
      invariant FreshFiles(store.tree).Keys <= started + AllFiles(sets[..i])
    {
      MoreFiles(sets, i);
      ghost var put, stale, ok;
      put, stale, ok := OneReplacement(store, calls[i], system, sets[i]);
      UnderOneMore(before, sets, i, installed, left, put, stale);
      MorePut(installed, put);
      installed := installed + [put];
      if put {
        left, cleared := stale, ok;
      }
    }
    assert sets[..|calls|] == sets;
  }

  /** What the run needs of one of them. */
  method OneReplacement(store: Store, cmds: seq<Cmd>, system: System, ghost next: Dir)
    returns (ghost put: bool, ghost stale: Dir, ghost ok: bool)
    requires next == FilesOf(cmds, system)
    modifies store
    ensures Logical(store.tree) == if put then Some(stale + next) else Logical(old(store.tree))
    ensures ok ==> stale == map[]
    ensures stale.Keys <= FreshFiles(old(store.tree)).Keys
    ensures FreshFiles(store.tree).Keys <= FreshFiles(old(store.tree)).Keys + next.Keys
  {
    var r;
    r, put, stale, ok := store.WriteDir(cmds, system);
  }

  lemma UnderOneMore(before: Option<Dir>, sets: seq<Dir>, i: nat, installed: seq<bool>, left: Dir, put: bool, stale: Dir)
    requires i < |sets| && |installed| == i
    ensures Under(if put then stale else left, LastInstalled(before, sets[..i + 1], installed + [put])) ==
            if put then Some(stale + sets[i]) else Under(left, LastInstalled(before, sets[..i], installed))
  {
    assert sets[..i + 1] == sets[..i] + [sets[i]];
    OneMore(before, sets[..i], installed, sets[i], put);
  }

  lemma UnderNothing(installed: Option<Dir>)
    ensures Under(map[], installed) == installed
  {
    if installed.Some? {
      assert map[] + installed.value == installed.value;
    }
  }

  lemma {:induction false} LastInstalledAt(before: Option<Dir>, sets: seq<Dir>, installed: seq<bool>)
    requires |sets| == |installed|
    ensures true in installed ==>
              LastPut(installed) < |sets| && LastInstalled(before, sets, installed) == Some(sets[LastPut(installed)])
    ensures true !in installed ==> LastInstalled(before, sets, installed) == before
  {
    if sets != [] {
      var n := |sets| - 1;
      LastInstalledAt(before, sets[..n], installed[..n]);
      assert installed == installed[..n] + [installed[n]];
    }
  }

  /** Every set overwrites all that can be in the fresh directory when its turn comes. */
  ghost predicate Covering(sets: seq<Dir>, started: set<string>) {
    forall i :: 0 <= i < |sets| ==> started + AllFiles(sets[..i]) <= sets[i].Keys
  }

  /** What is recovered is exactly the last installed set if and only if that set overwrites
      every file left from before it; and so it is for every course of faults when each set
      covers those before it and the fresh directory at the start. */
  lemma RecoveredExactlyIff(before: Option<Dir>, sets: seq<Dir>, installed: seq<bool>, left: Dir, started: set<string>)
    requires |sets| == |installed| && (true !in installed ==> left == map[])
    requires left.Keys <= started + AllFiles(sets[..LastPut(installed)])
    ensures Under(left, LastInstalled(before, sets, installed)) == LastInstalled(before, sets, installed)
            <==> true !in installed || left.Keys <= sets[LastPut(installed)].Keys
    ensures Covering(sets, started) ==>
              Under(left, LastInstalled(before, sets, installed)) == LastInstalled(before, sets, installed)
  {
    LastInstalledAt(before, sets, installed);
    if true in installed {
      StaleIsHarmlessIff(left, sets[LastPut(installed)]);
    } else {
      UnderNothing(before);
    }
  }
}
