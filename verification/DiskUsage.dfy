/** Adding up disk usage over a forest of devices in which one device can appear often. */
module DiskUsage {
  import opened Wrappers
  import opened Text

  datatype Disk = Disk(path: string, mount: string, used: nat, size: nat, kname: Option<string>, children: seq<Disk>)

  predicate IsKernelMount(mount: string) {
    Inside(mount, "/dev") || Inside(mount, "/proc") || Inside(mount, "/sys")
  }

  predicate Inside(mount: string, dir: string) {
    mount == dir || StartsWith(mount, dir + "/")
  }

  predicate ShouldCalc(fs: string, mount: string) {
    if IsKernelMount(mount) then false
    else if StartsWith(fs, "/dev") || StartsWith(fs, "//") || StartsWith(mount, "/mnt") then true
    else !(StartsWith(fs, "shm") || StartsWith(fs, "overlay") || StartsWith(fs, "tmpfs") || StartsWith(fs, "devtmpfs"))
  }

  function IdOf(disk: Disk): string {
    disk.path + ":" + (if disk.kname.Some? then disk.kname.value else "unknown")
  }

  const KERNEL_MOUNTS := ["/dev", "/proc", "/sys"]
  const NOT_STORAGE := ["shm", "overlay", "tmpfs", "devtmpfs"]

  /** A device is reported unless it is mounted at or inside one of the kernel's own places,
      or its source begins like one that is not storage and its mount not with `/mnt`. */
  lemma ReportedIff(fs: string, mount: string)
    ensures ShouldCalc(fs, mount) <==>
            && (forall dir :: dir in KERNEL_MOUNTS ==> mount != dir && !(dir + "/" <= mount))
            && ((forall kind :: kind in NOT_STORAGE ==> !(kind <= fs)) || "/mnt" <= mount)
  {
    var k, n := KERNEL_MOUNTS, NOT_STORAGE;
    assert k[0] in k && k[1] in k && k[2] in k;
    assert n[0] in n && n[1] in n && n[2] in n && n[3] in n;
    assert "/dev" <= fs || "//" <= fs ==> fs[0] == '/';
  }

  function KernelName(disk: Disk): string {
    match disk.kname case Some(name) => name case None => "unknown"
  }

  /** Devices without a colon in their paths have one id exactly when they have one path and
      one kernel name, where not to have any is to be called unknown. */
  lemma SameIdIff(a: Disk, b: Disk)
    requires ':' !in a.path && ':' !in b.path
    ensures IdOf(a) == IdOf(b) <==> a.path == b.path && KernelName(a) == KernelName(b)
  {
    assert IdOf(a) == a.path + [':'] + KernelName(a) && IdOf(b) == b.path + [':'] + KernelName(b);
    SplitOnceAt(a.path, ':', KernelName(a));
    SplitOnceAt(b.path, ':', KernelName(b));
  }

  /** With colons two devices can be taken for one, and the second is then not counted. */
  lemma IdsClash(size: nat)
    ensures var a, b := Disk("a", "/x", 0, size, Some("b:c"), []), Disk("a:b", "/y", 0, size, Some("c"), []);
            IdOf(a) == IdOf(b) && SizeOf(VisitedAll([a])) == SizeOf(VisitedAll([b])) == SizeOf(VisitedAll([a, b])) == size
  {
    var a, b := Disk("a", "/x", 0, size, Some("b:c"), []), Disk("a:b", "/y", 0, size, Some("c"), []);
    assert IdOf(a) == "a:b:c" == IdOf(b);
    Alone(a);
    Alone(b);
    assert [a, b][1..] == [b] && [a] + [b] == [a, b] && [a, b][..1] == [a];
    assert IdOf([a, b][0]) == IdOf([a, b][1]);
    assert SizeOf([a, b]) == SizeOf([a]);
  }

  lemma Alone(d: Disk)
    requires ShouldCalc(d.path, d.mount) && d.children == []
    ensures VisitedAll([d]) == Visited(d) == [d] && SizeOf([d]) == d.size
  {
    assert [d][1..] == [] && [d][..0] == [] && VisitedAll([]) == [] && [d] + [] == [d];
    assert IsFirst([d], 0);
  }

  predicate HasData(disk: Disk) {
    disk.used != 0 || disk.size != 0
  }

  // ---------- What is counted ----------

  /** The nodes that count, in the order they are come to: a node that should not be
      reported hides everything below it, and so does one with data of its own. */
  function Visited(disk: Disk): seq<Disk>
    decreases disk, 1
  {
    if !ShouldCalc(disk.path, disk.mount) then []
    else if HasData(disk) then [disk]
    else [disk] + VisitedAll(disk.children)
  }

  function VisitedAll(disks: seq<Disk>): seq<Disk>
    decreases disks, 0
  {
    if disks == [] then [] else Visited(disks[0]) + VisitedAll(disks[1..])
  }

  /** No earlier node has this id. */
  predicate IsFirst(nodes: seq<Disk>, i: nat)
    requires i < |nodes|
  {
    forall j :: 0 <= j < i ==> IdOf(nodes[j]) != IdOf(nodes[i])
  }

  /** The sum over distinct ids of the first node with each. */
  function UsedOf(nodes: seq<Disk>): nat {
    if nodes == [] then 0
    else
      var n := |nodes| - 1;
      UsedOf(nodes[..n]) + if IsFirst(nodes, n) then nodes[n].used else 0
  }

  function SizeOf(nodes: seq<Disk>): nat {
    if nodes == [] then 0
    else
      var n := |nodes| - 1;
      SizeOf(nodes[..n]) + if IsFirst(nodes, n) then nodes[n].size else 0
  }

  // ---------- The traversal ----------

  lemma Assoc(a: seq<Disk>, b: seq<Disk>, c: seq<Disk>)
    ensures a + (b + c) == (a + b) + c
  {
  }

  /** The running totals a traversal updates. `counted` is the nodes it has come to. */
  class Totals {
    var seen: seq<string>
    var used: nat
    var size: nat
    ghost var counted: seq<Disk>

    /** The totals are those of the nodes come to, and `seen` holds just their ids. */
    ghost predicate Valid()
      reads this
    {
      && used == UsedOf(counted) && size == SizeOf(counted)
      && (forall i :: 0 <= i < |counted| ==> IdOf(counted[i]) in seen)
      && (forall id :: id in seen ==> exists i :: 0 <= i < |counted| && IdOf(counted[i]) == id)
    }

    constructor ()
      ensures Valid() && counted == []
    {
      seen, used, size, counted := [], 0, 0, [];
    }

    /** One node's own numbers, once per id. */
    method Count(disk: Disk)
      requires Valid()
      modifies this
      ensures Valid() && counted == old(counted) + [disk]
    {
      var unique := IdOf(disk);
      ghost var nodes := counted + [disk];
      assert nodes[..|nodes| - 1] == counted;
      assert forall i :: 0 <= i < |counted| ==> nodes[i] == counted[i];
      assert IsFirst(nodes, |counted|) <==> unique !in seen;
      if unique !in seen {
        seen := seen + [unique];
        used := used + disk.used;
        size := size + disk.size;
      }
      counted := nodes;
      forall id | id in seen
        ensures exists i :: 0 <= i < |nodes| && IdOf(nodes[i]) == id
      {
        if id in old(seen) {
          var i :| 0 <= i < |old(counted)| && IdOf(old(counted)[i]) == id;
          assert nodes[i] == old(counted)[i];
        } else {
          assert IdOf(nodes[|old(counted)|]) == id;
        }
      }
    }

    method Visit(disk: Disk)
      requires Valid()
      modifies this
      ensures Valid() && counted == old(counted) + Visited(disk)
      decreases disk, 1
    {
      if !ShouldCalc(disk.path, disk.mount) {
        return;
      }
      Count(disk);
      if disk.used != 0 || disk.size != 0 {
        return;
      }
      VisitEach(disk.children);
      Assoc(old(counted), [disk], VisitedAll(disk.children));
    }

    /** The loop over a list of devices. */
    method VisitEach(disks: seq<Disk>)
      requires Valid()
      modifies this
      ensures Valid() && counted == old(counted) + VisitedAll(disks)
      decreases disks, 0
    {
      ghost var before := counted;
      for i := 0 to |disks|
        invariant Valid()
        invariant counted == before + VisitedAll(disks[..i])
      {
        VisitedAllLast(before, disks, i);
        Visit(disks[i]);
      }
      assert disks[..|disks|] == disks;
    }
  }

  lemma {:induction false} VisitedAllAppend(a: seq<Disk>, b: seq<Disk>)
    ensures VisitedAll(a + b) == VisitedAll(a) + VisitedAll(b)
  {
    if a == [] {
      assert a + b == b;
    } else {
      assert (a + b)[1..] == a[1..] + b;
      VisitedAllAppend(a[1..], b);
    }
  }

  lemma VisitedAllLast(before: seq<Disk>, disks: seq<Disk>, i: nat)
    requires i < |disks|
    ensures before + VisitedAll(disks[..i]) + Visited(disks[i]) == before + VisitedAll(disks[..i + 1])
  {
    assert disks[..i + 1] == disks[..i] + [disks[i]];
    VisitedAllAppend(disks[..i], [disks[i]]);
    assert VisitedAll([disks[i]]) == Visited(disks[i]) + VisitedAll([]);
    assert VisitedAll(disks[..i + 1]) == VisitedAll(disks[..i]) + Visited(disks[i]);
  }

  /** Usage of a forest is the sum over distinct ids of the first node visited with each. */
  method DiskUsage(disks: seq<Disk>) returns (used: nat, size: nat)
    ensures used == UsedOf(VisitedAll(disks)) && size == SizeOf(VisitedAll(disks))
  {
    var totals := new Totals();
    totals.VisitEach(disks);
    assert [] + VisitedAll(disks) == VisitedAll(disks);
    used, size := totals.used, totals.size;
  }

  // ---------- Which nodes count ----------

  /** A way down from the forest to a node: by every node on it that is to be reported, and
      past none that has data of its own. */
  ghost predicate Reaches(disks: seq<Disk>, way: seq<nat>, d: Disk)
    decreases |way|
  {
    && way != [] && way[0] < |disks|
    && var top := disks[way[0]];
       && ShouldCalc(top.path, top.mount)
       && if |way| == 1 then d == top else !HasData(top) && Reaches(top.children, way[1..], d)
  }

  lemma {:induction false} VisitedWay(disks: seq<Disk>, d: Disk) returns (way: seq<nat>)
    requires d in VisitedAll(disks)
    ensures Reaches(disks, way, d)
    decreases disks
  {
    var top := disks[0];
    if d == top && ShouldCalc(top.path, top.mount) {
      way := [0];
    } else if d in Visited(top) {
      var below := VisitedWay(top.children, d);
      way := [0] + below;
      assert way[1..] == below;
    } else {
      var later := VisitedWay(disks[1..], d);
      way := [later[0] + 1] + later[1..];
      assert way[1..] == later[1..] && disks[1..][later[0]] == disks[way[0]];
    }
  }

  lemma {:induction false} WayVisited(disks: seq<Disk>, way: seq<nat>, d: Disk)
    requires Reaches(disks, way, d)
    ensures d in VisitedAll(disks)
    decreases |way|
  {
    var i := way[0];
    if |way| > 1 {
      WayVisited(disks[i].children, way[1..], d);
    }
    VisitedThere(disks, i, d);
  }

  lemma {:induction false} VisitedThere(disks: seq<Disk>, i: nat, d: Disk)
    requires i < |disks| && d in Visited(disks[i])
    ensures d in VisitedAll(disks)
  {
    if i > 0 {
      VisitedThere(disks[1..], i - 1, d);
    }
  }

  ghost predicate Reachable(disks: seq<Disk>, d: Disk) {
    exists way: seq<nat> :: Reaches(disks, way, d)
  }

  /** A node counts if and only if there is such a way to it. */
  lemma VisitedIff(disks: seq<Disk>, d: Disk)
    ensures d in VisitedAll(disks) <==> Reachable(disks, d)
  {
    if d in VisitedAll(disks) {
      var way := VisitedWay(disks, d);
      assert Reaches(disks, way, d);
    }
    if Reachable(disks, d) {
      var way: seq<nat> :| Reaches(disks, way, d);
      WayVisited(disks, way, d);
    }
  }

  // ---------- What follows ----------

  /** Every id in the second list is already in the first: it adds nothing. */
  lemma {:induction false} KnownAddsNothing(nodes: seq<Disk>, more: seq<Disk>)
    requires forall i :: 0 <= i < |more| ==> HasId(nodes, IdOf(more[i]))
    ensures UsedOf(nodes + more) == UsedOf(nodes) && SizeOf(nodes + more) == SizeOf(nodes)
    decreases |more|
  {
    if more == [] {
      assert nodes + more == nodes;
    } else {
      var n := |more| - 1;
      var all := nodes + more;
      assert all[..|all| - 1] == nodes + more[..n];
      var j :| 0 <= j < |nodes| && IdOf(nodes[j]) == IdOf(more[n]);
      assert all[j] == nodes[j] && all[|all| - 1] == more[n];
      KnownAddsNothing(nodes, more[..n]);
    }
  }

  /** Reporting the same devices twice changes neither total. */
  lemma ListedTwice(disks: seq<Disk>)
    ensures UsedOf(VisitedAll(disks + disks)) == UsedOf(VisitedAll(disks))
    ensures SizeOf(VisitedAll(disks + disks)) == SizeOf(VisitedAll(disks))
  {
    VisitedAllAppend(disks, disks);
    var nodes := VisitedAll(disks);
    assert forall i :: 0 <= i < |nodes| ==> HasId(nodes, IdOf(nodes[i]));
    KnownAddsNothing(nodes, nodes);
  }

  /** The device without anything below a node that has data of its own, at any depth. */
  function Cut(disk: Disk): Disk
    decreases disk, 1
  {
    disk.(children := if HasData(disk) then [] else CutAll(disk.children))
  }

  function CutAll(disks: seq<Disk>): (r: seq<Disk>)
    ensures |r| == |disks|
    decreases disks, 0
  {
    if disks == [] then [] else [Cut(disks[0])] + CutAll(disks[1..])
  }

  /** The same nodes, as far as ids and numbers go, position by position. */
  ghost predicate SameNodes(a: seq<Disk>, b: seq<Disk>) {
    |a| == |b| && forall i :: 0 <= i < |a| ==> IdOf(a[i]) == IdOf(b[i]) && a[i].used == b[i].used && a[i].size == b[i].size
  }

  lemma SameNodesAppend(a: seq<Disk>, b: seq<Disk>, c: seq<Disk>, d: seq<Disk>)
    requires SameNodes(a, c) && SameNodes(b, d)
    ensures SameNodes(a + b, c + d)
  {
  }

  lemma {:induction false} CutVisits(disk: Disk)
    ensures SameNodes(Visited(Cut(disk)), Visited(disk))
    decreases disk, 1
  {
    if !HasData(disk) {
      CutAllVisits(disk.children);
      SameNodesAppend([Cut(disk)], VisitedAll(CutAll(disk.children)), [disk], VisitedAll(disk.children));
    }
  }

  lemma {:induction false} CutAllVisits(disks: seq<Disk>)
    ensures SameNodes(VisitedAll(CutAll(disks)), VisitedAll(disks))
    decreases disks, 0
  {
    if disks != [] {
      CutVisits(disks[0]);
      CutAllVisits(disks[1..]);
      SameNodesAppend(Visited(Cut(disks[0])), VisitedAll(CutAll(disks[1..])), Visited(disks[0]), VisitedAll(disks[1..]));
    }
  }

  /** What is below a node with data of its own, wherever in the forest it stands, adds
      nothing. */
  lemma BelowDataIgnored(disks: seq<Disk>)
    ensures UsedOf(VisitedAll(CutAll(disks))) == UsedOf(VisitedAll(disks))
    ensures SizeOf(VisitedAll(CutAll(disks))) == SizeOf(VisitedAll(disks))
  {
    CutAllVisits(disks);
    AlikeTotals(VisitedAll(CutAll(disks)), VisitedAll(disks));
  }

  /** So two forests that differ only below such nodes have the same totals. */
  lemma BelowDataIrrelevant(disks: seq<Disk>, others: seq<Disk>)
    requires CutAll(disks) == CutAll(others)
    ensures UsedOf(VisitedAll(disks)) == UsedOf(VisitedAll(others))
    ensures SizeOf(VisitedAll(disks)) == SizeOf(VisitedAll(others))
  {
    BelowDataIgnored(disks);
    BelowDataIgnored(others);
  }

  lemma {:induction false} AlikeTotals(x: seq<Disk>, y: seq<Disk>)
    requires SameNodes(x, y)
    ensures UsedOf(x) == UsedOf(y) && SizeOf(x) == SizeOf(y)
    decreases |x|
  {
    if x != [] {
      var n := |x| - 1;
      AlikeTotals(x[..n], y[..n]);
    }
  }

  // ---------- Order ----------

  /** Nodes with one id always report the same numbers. */
  ghost predicate Consistent(nodes: seq<Disk>) {
    forall i, j :: 0 <= i < |nodes| && 0 <= j < |nodes| && IdOf(nodes[i]) == IdOf(nodes[j]) ==>
      nodes[i].used == nodes[j].used && nodes[i].size == nodes[j].size
  }

  predicate HasId(nodes: seq<Disk>, id: string) {
    exists i :: 0 <= i < |nodes| && IdOf(nodes[i]) == id
  }

  function WithoutId(nodes: seq<Disk>, id: string): seq<Disk> {
    if nodes == [] then []
    else
      var n := |nodes| - 1;
      WithoutId(nodes[..n], id) + if IdOf(nodes[n]) == id then [] else [nodes[n]]
  }

  lemma {:induction false} WithoutIdHas(nodes: seq<Disk>, id: string, other: string)
    ensures HasId(WithoutId(nodes, id), other) <==> other != id && HasId(nodes, other)
    ensures |WithoutId(nodes, id)| <= |nodes|
    decreases |nodes|
  {
    if nodes != [] {
      var n := |nodes| - 1;
      WithoutIdHas(nodes[..n], id, other);
      HasIdLast(nodes, other);
      HasIdMore(WithoutId(nodes[..n], id), nodes[n], other);
    }
  }

  lemma HasIdMore(nodes: seq<Disk>, disk: Disk, id: string)
    ensures HasId(nodes + [disk], id) <==> HasId(nodes, id) || IdOf(disk) == id
    ensures HasId(nodes + [], id) <==> HasId(nodes, id)
  {
    var more := nodes + [disk];
    assert nodes + [] == nodes;
    HasIdLast(more, id);
    assert more[|more| - 1] == disk && more[..|more| - 1] == nodes;
  }

  lemma HasIdLast(nodes: seq<Disk>, id: string)
    requires nodes != []
    ensures HasId(nodes, id) <==> IdOf(nodes[|nodes| - 1]) == id || HasId(nodes[..|nodes| - 1], id)
    ensures IsFirst(nodes, |nodes| - 1) <==> !HasId(nodes[..|nodes| - 1], IdOf(nodes[|nodes| - 1]))
  {
    var n := |nodes| - 1;
    if HasId(nodes[..n], id) {
      var i :| 0 <= i < n && IdOf(nodes[..n][i]) == id;
      assert IdOf(nodes[i]) == id;
    }
    if HasId(nodes[..n], IdOf(nodes[n])) {
      var i :| 0 <= i < n && IdOf(nodes[..n][i]) == IdOf(nodes[n]);
      assert IdOf(nodes[i]) == IdOf(nodes[n]);
    }
    if !IsFirst(nodes, n) {
      var i :| 0 <= i < n && IdOf(nodes[i]) == IdOf(nodes[n]);
      assert IdOf(nodes[..n][i]) == IdOf(nodes[n]);
    }
    if HasId(nodes, id) && IdOf(nodes[n]) != id {
      var i :| 0 <= i < |nodes| && IdOf(nodes[i]) == id;
      assert IdOf(nodes[..n][i]) == id;
    }
  }

  /** What an id contributes, wherever it stands. */
  lemma {:induction false} WithoutIdTotals(nodes: seq<Disk>, id: string, used: nat, size: nat)
    requires forall i :: 0 <= i < |nodes| && IdOf(nodes[i]) == id ==> nodes[i].used == used && nodes[i].size == size
    ensures UsedOf(nodes) == UsedOf(WithoutId(nodes, id)) + if HasId(nodes, id) then used else 0
    ensures SizeOf(nodes) == SizeOf(WithoutId(nodes, id)) + if HasId(nodes, id) then size else 0
    decreases |nodes|
  {
    if nodes != [] {
      var n := |nodes| - 1;
      var init, last := nodes[..n], nodes[n];
      assert nodes == init + [last];
      assert forall i :: 0 <= i < n ==> init[i] == nodes[i];
      WithoutIdTotals(init, id, used, size);
      TotalsMore(init, last);
      HasIdMore(init, last, id);
      var rest := WithoutId(init, id);
      if IdOf(last) == id {
        assert rest + [] == rest;
      } else {
        TotalsMore(rest, last);
        WithoutIdHas(init, id, IdOf(last));
      }
    }
  }

  /** One node more counts if its id is new. */
  lemma TotalsMore(nodes: seq<Disk>, disk: Disk)
    ensures UsedOf(nodes + [disk]) == UsedOf(nodes) + if HasId(nodes, IdOf(disk)) then 0 else disk.used
    ensures SizeOf(nodes + [disk]) == SizeOf(nodes) + if HasId(nodes, IdOf(disk)) then 0 else disk.size
  {
    var more := nodes + [disk];
    HasIdLast(more, IdOf(disk));
    assert more[|more| - 1] == disk && more[..|more| - 1] == nodes;
  }

  /** When nodes with one id always report the same numbers, neither total depends on the
      order of the nodes or on how often each appears. */
  lemma {:induction false} OrderDoesNotMatter(x: seq<Disk>, y: seq<Disk>)
    requires Consistent(x + y) && forall id :: HasId(x, id) <==> HasId(y, id)
    ensures UsedOf(x) == UsedOf(y) && SizeOf(x) == SizeOf(y)
    decreases |x|
  {
    if x == [] {
      if y != [] {
        assert HasId(y, IdOf(y[0])) && !HasId(x, IdOf(y[0]));
      }
    } else {
      var n := |x| - 1;
      var id, used, size := IdOf(x[n]), x[n].used, x[n].size;
      assert (x + y)[n] == x[n];
      assert forall i :: 0 <= i < |y| ==> (x + y)[|x| + i] == y[i];
      assert forall i :: 0 <= i < |x| ==> (x + y)[i] == x[i];
      WithoutIdTotals(x, id, used, size);
      WithoutIdTotals(y, id, used, size);
      assert HasId(x, id);
      var x', y' := WithoutId(x, id), WithoutId(y, id);
      WithoutIdShrinks(x, id);
      forall other
        ensures HasId(x', other) <==> HasId(y', other)
      {
        WithoutIdHas(x, id, other);
        WithoutIdHas(y, id, other);
      }
      WithoutIdConsistent(x, y, id);
      OrderDoesNotMatter(x', y');
    }
  }

  lemma WithoutIdShrinks(nodes: seq<Disk>, id: string)
    requires nodes != [] && IdOf(nodes[|nodes| - 1]) == id
    ensures |WithoutId(nodes, id)| < |nodes|
  {
    WithoutIdHas(nodes[..|nodes| - 1], id, id);
  }

  lemma {:induction false} WithoutIdFrom(nodes: seq<Disk>, id: string, node: Disk)
    requires node in WithoutId(nodes, id)
    ensures node in nodes
    decreases |nodes|
  {
    var n := |nodes| - 1;
    if node in WithoutId(nodes[..n], id) {
      WithoutIdFrom(nodes[..n], id, node);
    }
  }

  lemma WithoutIdConsistent(x: seq<Disk>, y: seq<Disk>, id: string)
    requires Consistent(x + y)
    ensures Consistent(WithoutId(x, id) + WithoutId(y, id))
  {
    var r := WithoutId(x, id) + WithoutId(y, id);
    forall i, j | 0 <= i < |r| && 0 <= j < |r| && IdOf(r[i]) == IdOf(r[j])
      ensures r[i].used == r[j].used && r[i].size == r[j].size
    {
      FromEither(x, y, id, r[i]);
      FromEither(x, y, id, r[j]);
      var a :| 0 <= a < |x + y| && (x + y)[a] == r[i];
      var b :| 0 <= b < |x + y| && (x + y)[b] == r[j];
    }
  }

  lemma FromEither(x: seq<Disk>, y: seq<Disk>, id: string, node: Disk)
    requires node in WithoutId(x, id) + WithoutId(y, id)
    ensures node in x + y
  {
    if node in WithoutId(x, id) {
      WithoutIdFrom(x, id, node);
    } else {
      WithoutIdFrom(y, id, node);
    }
  }
}
