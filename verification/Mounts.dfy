/**
 * The mount tree: which outside file, directory or tmpfs is mounted at which inside path.
 * Paths are cleaned absolute paths, given as their components; the file identities that stat(2)
 * reports are a fixed map.
 */
module Mounts {
  import opened Words

  type Path = seq<string>

  datatype Node =
    | File(outside: string, writable: bool)
    | Dir(outside: string, writable: bool)
    | Tmpfs(options: string)
    | Root(writable: bool)
    | NotSet

  datatype Tree = Tree(node: Option<Node>, index: nat, entries: map<string, Tree>)

  /** Device and inode of every path that exists. */
  type FileIds = map<string, nat>

  predicate IsSameFile(ids: FileIds, p: string, q: string) {
    p == q || (p in ids && q in ids && ids[p] == ids[q])
  }

  predicate IsWritable(n: Node) {
    match n
    case File(_, w) => w
    case Dir(_, w) => w
    case Root(w) => w
    case _ => false
  }

  predicate HasSameTarget(ids: FileIds, m: Node, n: Node) {
    match (m, n)
    case (File(p, _), File(q, _)) => IsSameFile(ids, p, q)
    case (Dir(p, _), Dir(q, _)) => IsSameFile(ids, p, q)
    case (Tmpfs(o), Tmpfs(o')) => o == o'
    case (Root(_), Root(_)) => true
    case _ => false
  }

  predicate IsEquivalentNode(ids: FileIds, m: Node, n: Node) {
    HasSameTarget(ids, m, n) && IsWritable(m) == IsWritable(n)
  }

  // Insert ------------------------------------------------------------------------------

  datatype Outcome = Outcome(ok: bool, tree: Tree, count: nat)

  /** The last step of Insert, at the entry of the path itself; None is FailedPrecondition. */
  function Place(ids: FileIds, t: Tree, node: Node): Option<Tree> {
    if t.node.Some? then
      var cur := t.node.value;
      if IsEquivalentNode(ids, cur, node) then Some(t)
      else if HasSameTarget(ids, cur, node) && !IsWritable(cur) && IsWritable(node) then Some(t.(node := Some(node)))
      else if HasSameTarget(ids, cur, node) && IsWritable(cur) && !IsWritable(node) then Some(t)
      else None
    else if node.File? && t.entries != map[] then None
    else Some(t.(node := Some(node)))
  }

  predicate IsFile(t: Tree) { t.node.Some? && t.node.value.File? }

  /** The walk of Insert: entries that are missing are created on the way, also if the walk then fails. */
  function Walk(ids: FileIds, t: Tree, parts: Path, node: Node, count: nat): Outcome
    requires parts != []
    decreases |parts|
  {
    var isNew := parts[0] !in t.entries;
    var child := if isNew then Tree(None, count + 1, map[]) else t.entries[parts[0]];
    var count' := if isNew then count + 1 else count;
    var sub :=
      if |parts| == 1 then
        match Place(ids, child, node)
        case None => Outcome(false, child, count')
        case Some(t') => Outcome(true, t', count')
      else if IsFile(child) then Outcome(false, child, count')
      else Walk(ids, child, parts[1..], node, count');
    Outcome(sub.ok, t.(entries := t.entries[parts[0] := sub.tree]), sub.count)
  }

  /** Into an entry that was just created the walk cannot fail. */
  lemma {:induction false} WalkIntoNew(ids: FileIds, t: Tree, parts: Path, node: Node, count: nat)
    requires parts != [] && t.node == None && t.entries == map[]
    ensures Walk(ids, t, parts, node, count).ok
    decreases |parts|
  {
    if |parts| > 1 {
      WalkIntoNew(ids, Tree(None, count + 1, map[]), parts[1..], node, count + 1);
    }
  }

  /** A failed Insert changes neither the tree nor the index counter. */
  lemma {:induction false} FailedWalkChangesNothing(ids: FileIds, t: Tree, parts: Path, node: Node, count: nat)
    requires parts != [] && !Walk(ids, t, parts, node, count).ok
    ensures Walk(ids, t, parts, node, count) == Outcome(false, t, count)
    decreases |parts|
  {
    var r := Walk(ids, t, parts, node, count);
    if parts[0] !in t.entries {
      if |parts| > 1 {
        WalkIntoNew(ids, Tree(None, count + 1, map[]), parts[1..], node, count + 1);
      }
    } else {
      var child := t.entries[parts[0]];
      if |parts| > 1 && !IsFile(child) {
        FailedWalkChangesNothing(ids, child, parts[1..], node, count);
      }
      assert t.entries[parts[0] := child] == t.entries;
    }
  }

  // What is where -----------------------------------------------------------------------

  datatype Info = Info(node: Option<Node>, index: nat)

  function At(t: Tree, q: Path): Option<Info>
    decreases |q|
  {
    if q == [] then Some(Info(t.node, t.index))
    else if q[0] in t.entries then At(t.entries[q[0]], q[1..])
    else None
  }

  function NodeAt(t: Tree, q: Path): Option<Node> {
    match At(t, q) case None => None case Some(i) => i.node
  }

  predicate FileAt(t: Tree, q: Path) {
    NodeAt(t, q).Some? && NodeAt(t, q).value.File?
  }

  /** How many of the leading components of a path are there. */
  function Depth(t: Tree, q: Path): (d: nat)
    ensures d <= |q|
    decreases |q|
  {
    if q != [] && q[0] in t.entries then 1 + Depth(t.entries[q[0]], q[1..]) else 0
  }

  lemma {:induction false} DepthAt(t: Tree, q: Path, k: nat)
    requires k <= |q|
    ensures At(t, q[..k]).Some? <==> k <= Depth(t, q)
    decreases |q|
  {
    if k > 0 && q[0] in t.entries {
      DepthAt(t.entries[q[0]], q[1..], k - 1);
      assert q[..k][1..] == q[1..][..k - 1];
    }
  }

  /** What Insert leaves at a path. */
  function NewNode(ids: FileIds, before: Option<Node>, node: Node): Option<Node> {
    if before.None? then Some(node)
    else if HasSameTarget(ids, before.value, node) && !IsWritable(before.value) && IsWritable(node) then Some(node)
    else before
  }

  /** The index of an entry created at depth `k` when `d` components were there already. */
  function NewIndex(count: nat, d: nat, k: nat): nat {
    if k > d then count + k - d else count
  }

  /**
   * What is at `q` after a successful Insert: the path itself has its new node, missing ancestors
   * have been created without a node and with the next indices, nothing else has changed.
   */
  function AfterInsert(ids: FileIds, t: Tree, parts: Path, node: Node, count: nat, q: Path): Option<Info> {
    var index := if At(t, q).Some? then At(t, q).value.index else NewIndex(count, Depth(t, parts), |q|);
    if q == parts then Some(Info(NewNode(ids, NodeAt(t, q), node), index))
    else if q <= parts && At(t, q).None? then Some(Info(None, index))
    else At(t, q)
  }

  /** The entry that Insert steps into. */
  function Child(t: Tree, name: string, count: nat): Tree {
    if name in t.entries then t.entries[name] else Tree(None, count + 1, map[])
  }

  function ChildCount(t: Tree, name: string, count: nat): nat {
    if name in t.entries then count else count + 1
  }

  lemma WalkStep(ids: FileIds, t: Tree, parts: Path, node: Node, count: nat)
    requires |parts| > 1 && Walk(ids, t, parts, node, count).ok
    ensures !IsFile(Child(t, parts[0], count))
    ensures var sub := Walk(ids, Child(t, parts[0], count), parts[1..], node, ChildCount(t, parts[0], count));
            sub.ok && Walk(ids, t, parts, node, count) ==
                      Outcome(true, t.(entries := t.entries[parts[0] := sub.tree]), sub.count)
  {
  }

  lemma WalkLast(ids: FileIds, t: Tree, parts: Path, node: Node, count: nat)
    requires |parts| == 1 && Walk(ids, t, parts, node, count).ok
    ensures var child := Child(t, parts[0], count);
            && (child.node.None? && node.File? ==> child.entries == map[])
            && Walk(ids, t, parts, node, count) ==
               Outcome(true, t.(entries := t.entries[parts[0] := child.(node := NewNode(ids, child.node, node))]),
                       ChildCount(t, parts[0], count))
  {
  }

  lemma AtChild(t: Tree, q: Path, count: nat)
    requires q != []
    ensures q[0] in t.entries ==> At(t, q) == At(Child(t, q[0], count), q[1..])
    ensures q[0] !in t.entries ==> At(t, q) == None && (|q| > 1 ==> At(Child(t, q[0], count), q[1..]) == None)
  {
  }

  lemma AtSingle(t: Tree, name: string)
    ensures At(t, [name]) == if name in t.entries then Some(Info(t.entries[name].node, t.entries[name].index)) else None
  {
    assert [name][1..] == [];
  }

  /** What AfterInsert says of a path below the first component, said of the child. */
  lemma AfterInsertChild(ids: FileIds, t: Tree, parts: Path, node: Node, count: nat, q: Path)
    requires |parts| > 1 && q != [] && q[0] == parts[0]
    ensures AfterInsert(ids, t, parts, node, count, q)
            == AfterInsert(ids, Child(t, parts[0], count), parts[1..], node, ChildCount(t, parts[0], count), q[1..])
  {
    hide HasSameTarget, IsWritable;
    assert q == parts <==> q[1..] == parts[1..];
    assert q <= parts <==> q[1..] <= parts[1..];
    AtChild(t, q, count);
    assert Depth(t, parts) == if parts[0] in t.entries then 1 + Depth(t.entries[parts[0]], parts[1..]) else 0;
    assert parts[0] !in t.entries ==> Depth(Child(t, parts[0], count), parts[1..]) == 0;
  }

  lemma {:induction false} WalkAt(ids: FileIds, t: Tree, parts: Path, node: Node, count: nat, q: Path)
    requires parts != [] && Walk(ids, t, parts, node, count).ok
    ensures At(Walk(ids, t, parts, node, count).tree, q) == AfterInsert(ids, t, parts, node, count, q)
    decreases |parts|
  {
    hide Walk, NewNode;
    var t' := Walk(ids, t, parts, node, count).tree;
    if |parts| == 1 {
      WalkLast(ids, t, parts, node, count);
      WalkLastAt(ids, t, parts[0], node, count, q);
      assert parts == [parts[0]];
    } else {
      WalkStep(ids, t, parts, node, count);
      if q != [] {
        AtChild(t', q, count);
        if q[0] == parts[0] {
          WalkAt(ids, Child(t, parts[0], count), parts[1..], node, ChildCount(t, parts[0], count), q[1..]);
          AfterInsertChild(ids, t, parts, node, count, q);
        }
      }
    }
  }

  lemma WalkLastAt(ids: FileIds, t: Tree, name: string, node: Node, count: nat, q: Path)
    ensures var child := Child(t, name, count);
            var t' := t.(entries := t.entries[name := child.(node := NewNode(ids, child.node, node))]);
            At(t', q) == AfterInsert(ids, t, [name], node, count, q)
  {
    hide NewNode;
    var child := Child(t, name, count);
    var child' := child.(node := NewNode(ids, child.node, node));
    var t' := t.(entries := t.entries[name := child']);
    AtSingle(t, name);
    AtSingle(t', name);
    assert Depth(t, [name]) == if name in t.entries then 1 else 0;
    if |q| == 1 && q[0] == name {
      assert q == [name];
    } else if |q| > 1 && q[0] == name {
      AtChild(t, q, count);
      assert At(child', q[1..]) == At(child, q[1..]);
    }
  }

  lemma {:induction false} WalkCount(ids: FileIds, t: Tree, parts: Path, node: Node, count: nat)
    requires parts != [] && Walk(ids, t, parts, node, count).ok
    ensures Walk(ids, t, parts, node, count).count == NewIndex(count, Depth(t, parts), |parts|)
    decreases |parts|
  {
    if |parts| > 1 {
      var isNew := parts[0] !in t.entries;
      var child := if isNew then Tree(None, count + 1, map[]) else t.entries[parts[0]];
      WalkCount(ids, child, parts[1..], node, if isNew then count + 1 else count);
    }
  }

  /** A successful Insert passed no file on its way, and put no file on top of entries. */
  lemma {:induction false} WalkAvoidsFiles(ids: FileIds, t: Tree, parts: Path, node: Node, count: nat, k: nat)
    requires parts != [] && Walk(ids, t, parts, node, count).ok && 0 < k < |parts|
    ensures NodeAt(t, parts[..k]).Some? ==> !NodeAt(t, parts[..k]).value.File?
    decreases |parts|
  {
    if parts[0] in t.entries {
      var child := t.entries[parts[0]];
      assert parts[..k][1..] == parts[1..][..k - 1];
      if k == 1 {
        AtSingle(t, parts[0]);
        assert parts[..k] == [parts[0]];
      } else {
        WalkAvoidsFiles(ids, child, parts[1..], node, count, k - 1);
      }
    }
  }

  lemma {:induction false} FilePlacedOnLeaf(ids: FileIds, t: Tree, parts: Path, node: Node, count: nat, name: string)
    requires parts != [] && Walk(ids, t, parts, node, count).ok && node.File?
    requires NodeAt(t, parts).None?
    ensures At(t, parts + [name]).None?
    decreases |parts|
  {
    if parts[0] in t.entries {
      var child := t.entries[parts[0]];
      assert (parts + [name])[1..] == parts[1..] + [name];
      if |parts| == 1 {
        AtSingle(t, parts[0]);
        assert parts == [parts[0]];
        assert At(t, parts + [name]) == At(child, [name]);
      } else {
        FilePlacedOnLeaf(ids, child, parts[1..], node, count, name);
      }
    }
  }

  // Remove --------------------------------------------------------------------------------

  /** None is NotFound. */
  function Prune(t: Tree, parts: Path): Option<Tree>
    decreases |parts|
  {
    if parts == [] then Some(t.(node := None, entries := map[]))
    else if IsFile(t) || parts[0] !in t.entries then None
    else match Prune(t.entries[parts[0]], parts[1..])
         case None => None
         case Some(child) => Some(t.(entries := t.entries[parts[0] := child]))
  }

  /** There is a file on the way to `q`, at its end not counted. */
  ghost predicate FileOnTheWay(t: Tree, q: Path) {
    exists k: nat :: k < |q| && FileAt(t, q[..k])
  }

  /** ... the root not counted either. */
  ghost predicate FileBetween(t: Tree, q: Path) {
    exists k: nat :: 0 < k < |q| && FileAt(t, q[..k])
  }

  lemma FileAtRoot(t: Tree, q: Path)
    ensures FileAt(t, q[..0]) <==> IsFile(t)
  {
    assert q[..0] == [];
  }

  lemma FileAtChild(t: Tree, q: Path, k: nat)
    requires 0 < k <= |q| && q[0] in t.entries
    ensures FileAt(t, q[..k]) <==> FileAt(t.entries[q[0]], q[1..][..k - 1])
  {
    assert q[..k][1..] == q[1..][..k - 1];
  }

  lemma FileOnTheWayBelow(t: Tree, q: Path)
    requires q != [] && q[0] in t.entries
    ensures FileOnTheWay(t, q) <==> IsFile(t) || FileOnTheWay(t.entries[q[0]], q[1..])
    ensures FileBetween(t, q) <==> FileOnTheWay(t.entries[q[0]], q[1..])
  {
    var child, rest := t.entries[q[0]], q[1..];
    FileAtRoot(t, q);
    forall k: nat | 0 < k < |q| ensures FileAt(t, q[..k]) <==> FileAt(child, rest[..k - 1]) {
      FileAtChild(t, q, k);
    }
    if FileOnTheWay(child, rest) {
      var k: nat :| k < |rest| && FileAt(child, rest[..k]);
      var k' := k + 1;
      assert FileAt(t, q[..k']);
    }
    if FileOnTheWay(t, q) && !IsFile(t) {
      var k: nat :| k < |q| && FileAt(t, q[..k]);
      assert FileAt(child, rest[..k - 1]);
    }
  }

  /** Remove succeeds exactly at a path that is there and has no file on the way to it. */
  lemma {:induction false} PruneIff(t: Tree, parts: Path)
    ensures Prune(t, parts).Some? <==> At(t, parts).Some? && !FileOnTheWay(t, parts)
    decreases |parts|
  {
    if parts != [] {
      FileAtRoot(t, parts);
      if parts[0] in t.entries {
        PruneIff(t.entries[parts[0]], parts[1..]);
        FileOnTheWayBelow(t, parts);
      }
    }
  }

  /** Remove clears the path and everything below it; the entry itself stays, with its index. */
  lemma {:induction false} PruneAt(t: Tree, parts: Path, q: Path)
    requires Prune(t, parts).Some?
    ensures At(t, parts).Some?
    ensures At(Prune(t, parts).value, q) ==
              if q == parts then Some(Info(None, At(t, parts).value.index))
              else if parts <= q then None
              else At(t, q)
    decreases |parts|
  {
    if parts == [] {
    } else {
      PruneAt(t.entries[parts[0]], parts[1..], if q == [] then [] else q[1..]);
      if q != [] && q[0] == parts[0] {
        assert q == parts <==> q[1..] == parts[1..];
        assert parts <= q <==> parts[1..] <= q[1..];
      }
    }
  }

  // The invariant over every run --------------------------------------------------------

  function Parent(q: Path): Path
    requires q != []
  {
    q[..|q| - 1]
  }

  /** An entry's index is within the counter; its parent is there, is older and is not a file. */
  ghost predicate EntryOk(t: Tree, count: nat, q: Path) {
    At(t, q).Some? ==>
      && At(t, q).value.index <= count
      && (q != [] ==>
            var p := Parent(q);
            At(t, p).Some? && At(t, p).value.index < At(t, q).value.index && !FileAt(t, p))
  }

  ghost predicate IndexDiffers(t: Tree, q: Path, r: Path) {
    q != r && At(t, q).Some? && At(t, r).Some? ==> At(t, q).value.index != At(t, r).value.index
  }

  /** Files are leaves, indices are distinct and grow from parent to child. */
  ghost predicate Inv(t: Tree, count: nat) {
    && !IsFile(t)
    && (forall q {:trigger EntryOk(t, count, q)} :: EntryOk(t, count, q))
    && (forall q, r {:trigger IndexDiffers(t, q, r)} :: IndexDiffers(t, q, r))
  }

  /** An entry that Insert has created. */
  lemma CreatedAt(t: Tree, parts: Path, q: Path, count: nat)
    requires q <= parts && At(t, q).None?
    ensures |q| > Depth(t, parts)
    ensures NewIndex(count, Depth(t, parts), |q|) == count + |q| - Depth(t, parts) > count
    ensures q != [] && (At(t, Parent(q)).Some? <==> |q| - 1 == Depth(t, parts))
  {
    assert q == parts[..|q|];
    DepthAt(t, parts, |q|);
    if q != [] {
      DepthAt(t, parts, |q| - 1);
      assert Parent(q) == parts[..|q| - 1];
    }
  }

  lemma NewNodeFile(ids: FileIds, before: Option<Node>, node: Node)
    requires before.Some?
    ensures NewNode(ids, before, node).Some? && (NewNode(ids, before, node).value.File? <==> before.value.File?)
  {
  }

  lemma InsertEntryOk(ids: FileIds, t: Tree, parts: Path, node: Node, count: nat, q: Path)
    requires Inv(t, count) && parts != [] && Walk(ids, t, parts, node, count).ok
    ensures var r := Walk(ids, t, parts, node, count); EntryOk(r.tree, r.count, q)
  {
    hide Walk, At, Depth, NewNode;
    var r := Walk(ids, t, parts, node, count);
    WalkAt(ids, t, parts, node, count, q);
    WalkCount(ids, t, parts, node, count);
    assert EntryOk(t, count, q);
    if At(r.tree, q).Some? && q != [] {
      var p := Parent(q);
      assert EntryOk(t, count, p);
      WalkAt(ids, t, parts, node, count, p);
      if At(t, q).Some? {
        OldEntryNotUnderFile(ids, t, parts, node, count, q);
      } else {
        CreatedAt(t, parts, q, count);
        assert p <= parts && p != parts;
        if At(t, p).Some? {
          NotThroughFile(ids, t, parts, node, count, p);
        } else {
          CreatedAt(t, parts, p, count);
        }
      }
    }
  }

  lemma NotThroughFile(ids: FileIds, t: Tree, parts: Path, node: Node, count: nat, p: Path)
    requires !IsFile(t) && parts != [] && Walk(ids, t, parts, node, count).ok
    requires p <= parts && p != parts
    ensures !FileAt(t, p)
  {
    if p != [] {
      WalkAvoidsFiles(ids, t, parts, node, count, |p|);
      assert p == parts[..|p|];
    }
  }

  lemma OldEntryNotUnderFile(ids: FileIds, t: Tree, parts: Path, node: Node, count: nat, q: Path)
    requires Inv(t, count) && parts != [] && Walk(ids, t, parts, node, count).ok
    requires q != [] && At(t, q).Some?
    ensures !FileAt(Walk(ids, t, parts, node, count).tree, Parent(q))
  {
    hide Walk, At, Depth;
    var p := Parent(q);
    assert EntryOk(t, count, q);
    WalkAt(ids, t, parts, node, count, p);
    if p == parts {
      if NodeAt(t, p).Some? {
        NewNodeFile(ids, NodeAt(t, p), node);
      } else if node.File? {
        assert parts + [q[|q| - 1]] == q;
        FilePlacedOnLeaf(ids, t, parts, node, count, q[|q| - 1]);
      }
    }
  }

  lemma InsertIndexDiffers(ids: FileIds, t: Tree, parts: Path, node: Node, count: nat, q: Path, r: Path)
    requires Inv(t, count) && parts != [] && Walk(ids, t, parts, node, count).ok
    ensures IndexDiffers(Walk(ids, t, parts, node, count).tree, q, r)
  {
    hide Walk, At, Depth, NewNode;
    WalkAt(ids, t, parts, node, count, q);
    WalkAt(ids, t, parts, node, count, r);
    assert EntryOk(t, count, q) && EntryOk(t, count, r) && IndexDiffers(t, q, r);
    if q <= parts && At(t, q).None? {
      CreatedAt(t, parts, q, count);
    }
    if r <= parts && At(t, r).None? {
      CreatedAt(t, parts, r, count);
    }
    assert q <= parts && r <= parts && |q| == |r| ==> q == r;
  }

  lemma InsertInv(ids: FileIds, t: Tree, parts: Path, node: Node, count: nat)
    requires Inv(t, count) && parts != [] && Walk(ids, t, parts, node, count).ok
    ensures var r := Walk(ids, t, parts, node, count); Inv(r.tree, r.count)
  {
    var r := Walk(ids, t, parts, node, count);
    forall q ensures EntryOk(r.tree, r.count, q) {
      InsertEntryOk(ids, t, parts, node, count, q);
    }
    forall q, p ensures IndexDiffers(r.tree, q, p) {
      InsertIndexDiffers(ids, t, parts, node, count, q, p);
    }
  }

  lemma RemoveInv(t: Tree, count: nat, parts: Path)
    requires Inv(t, count) && Prune(t, parts).Some?
    ensures Inv(Prune(t, parts).value, count)
  {
    hide At;
    var t' := Prune(t, parts).value;
    forall q ensures EntryOk(t', count, q) {
      PruneAt(t, parts, q);
      assert EntryOk(t, count, q);
      if q != [] {
        PruneAt(t, parts, Parent(q));
        assert parts <= Parent(q) ==> parts <= q && parts != q;
      }
    }
    forall q, r ensures IndexDiffers(t', q, r) {
      PruneAt(t, parts, q);
      PruneAt(t, parts, r);
      assert IndexDiffers(t, q, r);
    }
  }

  // Runs ------------------------------------------------------------------------------------

  datatype Status = Ok | InvalidArgument | FailedPrecondition | NotFound
  datatype Op = Insert(path: Path, node: Node) | Remove(path: Path)
  datatype State = State(tree: Tree, count: nat)

  const INIT := State(Tree(Some(Root(false)), 0, map[]), 0)

  predicate HasNullByte(path: Path) {
    exists i :: 0 <= i < |path| && '\0' in path[i]
  }

  predicate BadNode(node: Node) {
    node.Root? || ((node.File? || node.Dir?) && (node.outside == "" || '\0' in node.outside))
  }

  /** Paths and nodes that are taken at all. */
  ghost predicate Clean(path: Path) {
    path != [] && forall name, c :: name in path && c in name ==> c != '\0'
  }

  predicate Mountable(node: Node) {
    match node
    case File(outside, _) => outside != "" && forall c :: c in outside ==> c != '\0'
    case Dir(outside, _) => outside != "" && forall c :: c in outside ==> c != '\0'
    case Root(_) => false
    case _ => true
  }

  lemma CleanIff(path: Path)
    ensures Clean(path) <==> path != [] && !HasNullByte(path)
  {
    if HasNullByte(path) {
      var i :| 0 <= i < |path| && '\0' in path[i];
      assert path[i] in path;
    }
  }

  lemma MountableIff(node: Node)
    ensures Mountable(node) <==> !BadNode(node)
  {
  }

  function Apply(ids: FileIds, s: State, op: Op): (Status, State) {
    match op
    case Insert(path, node) =>
      if HasNullByte(path) || BadNode(node) || path == [] then (InvalidArgument, s)
      else
        var r := Walk(ids, s.tree, path, node, s.count);
        (if r.ok then Ok else FailedPrecondition, State(r.tree, r.count))
    case Remove(path) =>
      if HasNullByte(path) || path == [] then (InvalidArgument, s)
      else match Prune(s.tree, path)
           case None => (NotFound, s)
           case Some(t) => (Ok, State(t, s.count))
  }

  /** When Remove succeeds, and why it fails if it does. */
  lemma RemoveIff(ids: FileIds, s: State, path: Path)
    ensures var status := Apply(ids, s, Remove(path)).0;
            && (status == InvalidArgument <==> !Clean(path))
            && (status == Ok <==> Clean(path) && At(s.tree, path).Some? && !FileOnTheWay(s.tree, path))
            && (status == InvalidArgument || status == Ok || status == NotFound)
  {
    hide Clean, HasNullByte;
    CleanIff(path);
    PruneIff(s.tree, path);
  }

  /** In a tree that keeps the invariant whatever is there can be removed. */
  lemma WhatIsThereCanBeRemoved(ids: FileIds, s: State, path: Path)
    requires Inv(s.tree, s.count) && Clean(path)
    ensures Apply(ids, s, Remove(path)).0 == if At(s.tree, path).Some? then Ok else NotFound
  {
    hide Inv, Clean;
    RemoveIff(ids, s, path);
    if At(s.tree, path).Some? {
      NoFileAbove(s.tree, s.count, path);
    }
  }

  lemma {:induction false} NoFileAbove(t: Tree, count: nat, q: Path)
    requires Inv(t, count) && At(t, q).Some?
    ensures !FileOnTheWay(t, q)
    decreases |q|
  {
    if q != [] {
      assert EntryOk(t, count, q);
      NoFileAbove(t, count, Parent(q));
      forall k: nat | k < |q| ensures !FileAt(t, q[..k]) {
        assert k < |q| - 1 ==> Parent(q)[..k] == q[..k];
      }
    }
  }

  /** What Insert needs at the path itself: the same target, or nothing, and for a file nothing below. */
  ghost predicate CanPlace(ids: FileIds, t: Tree, path: Path, node: Node) {
    if NodeAt(t, path).Some? then HasSameTarget(ids, NodeAt(t, path).value, node)
    else node.File? ==> forall name :: At(t, path + [name]).None?
  }

  /** When Insert succeeds, and why it fails if it does. */
  lemma InsertIff(ids: FileIds, s: State, path: Path, node: Node)
    ensures var status := Apply(ids, s, Insert(path, node)).0;
            && (status == InvalidArgument <==> !Clean(path) || !Mountable(node))
            && (status == Ok <==>
                  && Clean(path) && Mountable(node)
                  && !FileBetween(s.tree, path) && CanPlace(ids, s.tree, path, node))
            && (status == InvalidArgument || status == Ok || status == FailedPrecondition)
  {
    hide Clean, HasNullByte, Mountable, BadNode;
    CleanIff(path);
    MountableIff(node);
    if path != [] {
      WalkIff(ids, s.tree, path, node, s.count);
    }
  }

  lemma {:induction false} WalkIff(ids: FileIds, t: Tree, parts: Path, node: Node, count: nat)
    requires parts != []
    ensures Walk(ids, t, parts, node, count).ok <==> !FileBetween(t, parts) && CanPlace(ids, t, parts, node)
    decreases |parts|
  {
    if parts[0] !in t.entries {
      IntoNothing(ids, t, parts, node, count);
      return;
    }
    var child, rest := t.entries[parts[0]], parts[1..];
    FileOnTheWayBelow(t, parts);
    CanPlaceBelow(ids, t, parts, node);
    if |parts| == 1 {
      PlaceIff(ids, child, node);
    } else {
      WalkIff(ids, child, rest, node, count);
      FileAtRoot(child, rest);
      assert FileOnTheWay(child, rest) <==> IsFile(child) || FileBetween(child, rest);
    }
  }

  lemma IntoNothing(ids: FileIds, t: Tree, parts: Path, node: Node, count: nat)
    requires parts != [] && parts[0] !in t.entries
    ensures Walk(ids, t, parts, node, count).ok && !FileBetween(t, parts) && CanPlace(ids, t, parts, node)
  {
    if |parts| > 1 {
      WalkIntoNew(ids, Tree(None, count + 1, map[]), parts[1..], node, count + 1);
    }
    forall k: nat | 0 < k < |parts| ensures !FileAt(t, parts[..k]) {
      assert parts[..k][0] == parts[0];
    }
    forall name ensures At(t, parts + [name]).None? {
      assert (parts + [name])[0] == parts[0];
    }
  }

  lemma CanPlaceBelow(ids: FileIds, t: Tree, parts: Path, node: Node)
    requires parts != [] && parts[0] in t.entries
    ensures CanPlace(ids, t, parts, node) <==> CanPlace(ids, t.entries[parts[0]], parts[1..], node)
  {
    forall name ensures At(t, parts + [name]) == At(t.entries[parts[0]], parts[1..] + [name]) {
      assert (parts + [name])[1..] == parts[1..] + [name];
    }
  }

  lemma PlaceIff(ids: FileIds, t: Tree, node: Node)
    ensures Place(ids, t, node).Some? <==> CanPlace(ids, t, [], node)
  {
    forall name ensures At(t, [] + [name]).Some? <==> name in t.entries {
      assert [] + [name] == [name];
      AtSingle(t, name);
    }
  }

  function Run(ids: FileIds, s: State, ops: seq<Op>): State
    decreases |ops|
  {
    if ops == [] then s else Run(ids, Apply(ids, s, ops[0]).1, ops[1..])
  }

  lemma FailedOpChangesNothing(ids: FileIds, s: State, op: Op)
    requires Apply(ids, s, op).0 != Ok
    ensures Apply(ids, s, op).1 == s
  {
    if op.Insert? && Apply(ids, s, op).0 == FailedPrecondition {
      FailedWalkChangesNothing(ids, s.tree, op.path, op.node, s.count);
    }
  }

  lemma StepInv(ids: FileIds, s: State, op: Op)
    requires Inv(s.tree, s.count)
    ensures var s' := Apply(ids, s, op).1; Inv(s'.tree, s'.count)
  {
    hide Inv, Walk, Prune;
    if Apply(ids, s, op).0 != Ok {
      FailedOpChangesNothing(ids, s, op);
    } else if op.Insert? {
      InsertInv(ids, s.tree, op.path, op.node, s.count);
    } else {
      RemoveInv(s.tree, s.count, op.path);
    }
  }

  lemma {:induction false} RunInv(ids: FileIds, s: State, ops: seq<Op>)
    requires Inv(s.tree, s.count)
    ensures var s' := Run(ids, s, ops); Inv(s'.tree, s'.count)
    decreases |ops|
  {
    hide Inv, Apply;
    if ops != [] {
      StepInv(ids, s, ops[0]);
      RunInv(ids, Apply(ids, s, ops[0]).1, ops[1..]);
    }
  }

  lemma InitInv()
    ensures Inv(INIT.tree, INIT.count)
  {
    var t := INIT.tree;
    forall q ensures EntryOk(t, 0, q) {
    }
    forall q, r ensures IndexDiffers(t, q, r) {
    }
  }

  /** From the empty tree, whatever is inserted and removed: no file has anything below it. */
  lemma FilesAreLeaves(ids: FileIds, ops: seq<Op>, q: Path, name: string)
    requires FileAt(Run(ids, INIT, ops).tree, q)
    ensures At(Run(ids, INIT, ops).tree, q + [name]) == None
  {
    hide Run;
    InitInv();
    RunInv(ids, INIT, ops);
    var s := Run(ids, INIT, ops);
    assert EntryOk(s.tree, s.count, q + [name]);
    assert Parent(q + [name]) == q;
  }

  /** ... and an entry's index is its place in the order of creation, unless it is removed with a parent. */
  lemma IndexIsCreationOrder(ids: FileIds, s: State, op: Op, q: Path)
    requires Inv(s.tree, s.count)
    ensures var s' := Apply(ids, s, op).1;
            && s.count <= s'.count
            && (At(s.tree, q).Some? && At(s'.tree, q).Some? ==> At(s'.tree, q).value.index == At(s.tree, q).value.index)
            && (At(s.tree, q).None? && At(s'.tree, q).Some? ==> s.count < At(s'.tree, q).value.index <= s'.count)
  {
    hide Walk, Prune, At, Depth;
    if Apply(ids, s, op).0 != Ok {
      FailedOpChangesNothing(ids, s, op);
    } else if op.Insert? {
      WalkAt(ids, s.tree, op.path, op.node, s.count, q);
      WalkCount(ids, s.tree, op.path, op.node, s.count);
      if q <= op.path && At(s.tree, q).None? {
        CreatedAt(s.tree, op.path, q, s.count);
      }
    } else {
      PruneAt(s.tree, op.path, q);
    }
  }

  // Resolving -----------------------------------------------------------------------------

  /** A path relative to a directory, as a string. */
  function Slashed(tail: Path): string {
    if tail == [] then "" else if |tail| == 1 then tail[0] else tail[0] + "/" + Slashed(tail[1..])
  }

  /** file::JoinPath of two paths. */
  function JoinPath(a: string, b: string): string {
    if b == "" then a
    else if a == "" then b
    else (if a[|a| - 1] == '/' then a else a + "/") + (if b[0] == '/' then b[1..] else b)
  }

  function Join(outside: string, tail: Path): string { JoinPath(outside, Slashed(tail)) }

  /** Components of a cleaned path. */
  predicate Plain(p: Path) {
    forall i :: 0 <= i < |p| ==> p[i] != "" && '/' !in p[i]
  }

  lemma JoinOne(outside: string, name: string)
    requires outside != "" && Plain([name])
    ensures Join(outside, [name]) == (if outside[|outside| - 1] == '/' then outside else outside + "/") + name
  {
    assert [name][0] == name;
  }

  lemma SlashedEnds(p: Path)
    requires Plain(p) && p != []
    ensures Slashed(p) != "" && Slashed(p)[0] != '/' && Slashed(p)[|Slashed(p)| - 1] != '/'
  {
    assert p[0] != "" && '/' !in p[0];
    if |p| > 1 {
      SlashedEnds(p[1..]);
    }
  }

  lemma {:induction false} SlashedAppends(p: Path, q: Path)
    requires p != [] && q != []
    ensures Slashed(p + q) == Slashed(p) + "/" + Slashed(q)
    decreases |p|
  {
    assert (p + q)[1..] == p[1..] + q;
    if |p| == 1 {
      assert p[1..] + q == q;
    } else {
      SlashedAppends(p[1..], q);
    }
  }

  /** Going down in two steps is going down at once. */
  lemma JoinInSteps(outside: string, p: Path, q: Path)
    requires outside != "" && Plain(p) && Plain(q)
    ensures Join(Join(outside, p), q) == Join(outside, p + q)
  {
    if p == [] {
      assert p + q == q;
    } else if q == [] {
      assert p + q == p;
    } else {
      SlashedEnds(p);
      SlashedEnds(q);
      SlashedAppends(p, q);
    }
  }

  lemma FirstSlash(x: string, a: string, y: string, b: string)
    requires '/' !in x && '/' !in y && x + "/" + a == y + "/" + b
    ensures x == y && a == b
  {
    var s, t := x + "/" + a, y + "/" + b;
    assert s[|x|] == '/' && t[|y|] == '/';
    assert x == s[..|x|] && a == s[|x| + 1..] && y == t[..|y|] && b == t[|y| + 1..];
  }

  lemma {:induction false} SlashedIsInjective(p: Path, q: Path)
    requires Plain(p) && Plain(q) && p != [] && q != [] && Slashed(p) == Slashed(q)
    ensures p == q
    decreases |p|
  {
    if |p| > 1 && |q| > 1 {
      FirstSlash(p[0], Slashed(p[1..]), q[0], Slashed(q[1..]));
      SlashedIsInjective(p[1..], q[1..]);
      assert p == [p[0]] + p[1..] && q == [q[0]] + q[1..];
    } else {
      assert |p| > 1 ==> '/' in Slashed(p);
      assert |q| > 1 ==> '/' in Slashed(q);
    }
  }

  /** Different paths below a mounted directory are different files outside. */
  lemma JoinIsInjective(outside: string, p: Path, q: Path)
    requires outside != "" && Plain(p) && Plain(q) && p != [] && q != [] && Join(outside, p) == Join(outside, q)
    ensures p == q
  {
    SlashedEnds(p);
    SlashedEnds(q);
    var dir := if outside[|outside| - 1] == '/' then outside else outside + "/";
    assert Slashed(p) == Join(outside, p)[|dir|..] && Slashed(q) == Join(outside, q)[|dir|..];
    SlashedIsInjective(p, q);
  }

  function Outside(node: Option<Node>): Option<string> {
    if node.Some? && (node.value.File? || node.value.Dir?) then Some(node.value.outside) else None
  }

  function Resolve(t: Tree, q: Path): Option<string>
    decreases |q|
  {
    if q == [] then Outside(t.node)
    else if q[0] in t.entries then Resolve(t.entries[q[0]], q[1..])
    else if t.node.Some? && t.node.value.Dir? then Some(Join(t.node.value.outside, q))
    else None
  }

  /** A path resolves through the deepest entry on its way: exactly, or below a directory. */
  lemma {:induction false} ResolveIsDeepestMount(t: Tree, q: Path)
    ensures At(t, q[..Depth(t, q)]).Some?
    ensures var d := Depth(t, q);
            var n := NodeAt(t, q[..d]);
            Resolve(t, q) == if d == |q| then Outside(n)
                             else if n.Some? && n.value.Dir? then Some(Join(n.value.outside, q[d..]))
                             else None
    decreases |q|
  {
    if q != [] && q[0] in t.entries {
      var d := Depth(t, q);
      ResolveIsDeepestMount(t.entries[q[0]], q[1..]);
      assert q[..d][1..] == q[1..][..d - 1];
      assert q[d..] == q[1..][d - 1..];
    } else {
      assert q[..0] == [] && q[0..] == q;
    }
  }

  lemma MountedResolves(t: Tree, q: Path)
    requires NodeAt(t, q).Some?
    ensures Resolve(t, q) == Outside(NodeAt(t, q))
  {
    DepthAt(t, q, |q|);
    ResolveIsDeepestMount(t, q);
    assert q[..|q|] == q;
  }

  // Persistence ---------------------------------------------------------------------------

  lemma SameTargetIsEquivalence(ids: FileIds, a: Node, b: Node, c: Node)
    ensures !a.NotSet? ==> HasSameTarget(ids, a, a)
    ensures HasSameTarget(ids, a, b) ==> HasSameTarget(ids, b, a)
    ensures HasSameTarget(ids, a, b) && HasSameTarget(ids, b, c) ==> HasSameTarget(ids, a, c)
  {
  }

  /** `q` is mounted on what `node` names, and is writable if `node` is. */
  ghost predicate MountedAs(ids: FileIds, t: Tree, q: Path, node: Node) {
    && NodeAt(t, q).Some?
    && HasSameTarget(ids, node, NodeAt(t, q).value)
    && (IsWritable(node) ==> IsWritable(NodeAt(t, q).value))
  }

  lemma {:induction false} InsertAgrees(ids: FileIds, t: Tree, parts: Path, node: Node, count: nat)
    requires parts != [] && Walk(ids, t, parts, node, count).ok
    ensures NodeAt(t, parts).Some? ==> HasSameTarget(ids, NodeAt(t, parts).value, node)
    decreases |parts|
  {
    if |parts| == 1 {
      AtSingle(t, parts[0]);
      assert parts == [parts[0]];
    } else {
      WalkStep(ids, t, parts, node, count);
      AtChild(t, parts, count);
      InsertAgrees(ids, Child(t, parts[0], count), parts[1..], node, ChildCount(t, parts[0], count));
    }
  }

  lemma InsertMounts(ids: FileIds, s: State, q: Path, node: Node)
    requires Apply(ids, s, Insert(q, node)).0 == Ok && (node.File? || node.Dir?)
    ensures MountedAs(ids, Apply(ids, s, Insert(q, node)).1.tree, q, node)
  {
    hide Walk;
    WalkAt(ids, s.tree, q, node, s.count, q);
    InsertAgrees(ids, s.tree, q, node, s.count);
    if NodeAt(s.tree, q).Some? {
      SameTargetIsEquivalence(ids, NodeAt(s.tree, q).value, node, node);
    }
  }

  /** The operation removes `q` or an ancestor of it. */
  predicate Removes(op: Op, q: Path) {
    op.Remove? && op.path <= q
  }

  lemma StepKeepsMounted(ids: FileIds, s: State, op: Op, q: Path, node: Node)
    requires MountedAs(ids, s.tree, q, node) && !Removes(op, q)
    ensures MountedAs(ids, Apply(ids, s, op).1.tree, q, node)
  {
    hide Walk, Prune, At, Depth, HasSameTarget, IsWritable;
    if Apply(ids, s, op).0 != Ok {
      FailedOpChangesNothing(ids, s, op);
    } else if op.Insert? {
      WalkAt(ids, s.tree, op.path, op.node, s.count, q);
      SameTargetIsEquivalence(ids, node, NodeAt(s.tree, q).value, op.node);
    } else {
      PruneAt(s.tree, op.path, q);
    }
  }

  lemma {:induction false} RunKeepsMounted(ids: FileIds, s: State, ops: seq<Op>, q: Path, node: Node)
    requires MountedAs(ids, s.tree, q, node)
    requires forall i :: 0 <= i < |ops| ==> !Removes(ops[i], q)
    ensures MountedAs(ids, Run(ids, s, ops).tree, q, node)
    decreases |ops|
  {
    hide MountedAs, Apply;
    if ops != [] {
      StepKeepsMounted(ids, s, ops[0], q, node);
      RunKeepsMounted(ids, Apply(ids, s, ops[0]).1, ops[1..], q, node);
    }
  }

  /**
   * A file or directory that was inserted keeps resolving to the same file, whatever else is inserted
   * or removed, until its path or an ancestor is removed; and once writable it stays writable.
   */
  lemma InsertedKeepsResolving(ids: FileIds, s: State, q: Path, node: Node, ops: seq<Op>)
    requires Apply(ids, s, Insert(q, node)).0 == Ok && (node.File? || node.Dir?)
    requires forall i :: 0 <= i < |ops| ==> !Removes(ops[i], q)
    ensures var t := Run(ids, Apply(ids, s, Insert(q, node)).1, ops).tree;
            && Resolve(t, q).Some? && IsSameFile(ids, node.outside, Resolve(t, q).value)
            && (IsWritable(node) ==> NodeAt(t, q).Some? && IsWritable(NodeAt(t, q).value))
  {
    hide Run, Apply, At;
    var s' := Apply(ids, s, Insert(q, node)).1;
    InsertMounts(ids, s, q, node);
    RunKeepsMounted(ids, s', ops, q, node);
    MountedResolves(Run(ids, s', ops).tree, q);
  }

  /** Nothing is mounted at or below a path after it has been removed. */
  lemma RemovedIsGone(ids: FileIds, s: State, path: Path, q: Path)
    requires Apply(ids, s, Remove(path)).0 == Ok && path <= q
    ensures NodeAt(Apply(ids, s, Remove(path)).1.tree, q) == None
  {
    PruneAt(s.tree, path, q);
  }

  // The order of mounting -------------------------------------------------------------------

  predicate Before(t: Tree, a: string, b: string)
    requires a in t.entries && b in t.entries
  {
    t.entries[a].index <= t.entries[b].index
  }

  method Oldest(t: Tree, names: set<string>) returns (m: string)
    requires names != {} && names <= t.entries.Keys
    ensures m in names && forall n :: n in names ==> Before(t, m, n)
  {
    var rest := names;
    m :| m in rest;
    rest := rest - {m};
    while rest != {}
      invariant rest <= names && m in names
      invariant forall n :: n in names && n !in rest ==> Before(t, m, n)
      decreases |rest|
    {
      var x :| x in rest;
      rest := rest - {x};
      if t.entries[x].index < t.entries[m].index {
        m := x;
      }
    }
  }

  /** The entries of a tree, each once, by index. */
  method GetSortedEntries(t: Tree) returns (names: seq<string>)
    ensures forall n :: n in names <==> n in t.entries
    ensures forall i, j :: 0 <= i < j < |names| ==> names[i] != names[j] && Before(t, names[i], names[j])
  {
    var rest := t.entries.Keys;
    names := [];
    while rest != {}
      invariant rest <= t.entries.Keys
      invariant forall n :: n in t.entries <==> n in names || n in rest
      invariant forall n :: n in names ==> n !in rest
      invariant forall n, m :: n in names && m in rest ==> Before(t, n, m)
      invariant forall i, j :: 0 <= i < j < |names| ==> names[i] != names[j] && Before(t, names[i], names[j])
      decreases |rest|
    {
      var m := Oldest(t, rest);
      rest := rest - {m};
      names := names + [m];
    }
  }

  /** Siblings never tie, so the order of mounting is exactly the order of creation. */
  lemma SiblingsNeverTie(ids: FileIds, ops: seq<Op>, q: Path, a: string, b: string)
    requires a != b
    requires At(Run(ids, INIT, ops).tree, q + [a]).Some? && At(Run(ids, INIT, ops).tree, q + [b]).Some?
    ensures At(Run(ids, INIT, ops).tree, q + [a]).value.index != At(Run(ids, INIT, ops).tree, q + [b]).value.index
  {
    hide Run;
    InitInv();
    RunInv(ids, INIT, ops);
    var s := Run(ids, INIT, ops);
    assert (q + [a])[|q|] != (q + [b])[|q|];
    assert IndexDiffers(s.tree, q + [a], q + [b]);
  }

  // The object ------------------------------------------------------------------------------

  class Mounts {
    const ids: FileIds
    var tree: Tree
    var mountIndex: nat

    ghost predicate Valid()
      reads this
    {
      Inv(tree, mountIndex)
    }

    constructor (ids: FileIds)
      ensures Valid() && this.ids == ids && State(tree, mountIndex) == INIT
    {
      this.ids := ids;
      tree, mountIndex := INIT.tree, INIT.count;
      new;
      InitInv();
    }

    method InsertNode(path: Path, node: Node) returns (status: Status)
      requires Valid()
      modifies this
      ensures Valid()
      ensures (status, State(tree, mountIndex)) == Apply(ids, old(State(tree, mountIndex)), Insert(path, node))
      ensures status == Ok <==>
                && Clean(path) && Mountable(node)
                && !FileBetween(old(tree), path) && CanPlace(ids, old(tree), path, node)
      ensures status != Ok ==> State(tree, mountIndex) == old(State(tree, mountIndex))
    {
      hide FileBetween, CanPlace, Inv, Clean, Mountable;
      ghost var s := State(tree, mountIndex);
      InsertIff(ids, s, path, node);
      StepInv(ids, s, Insert(path, node));
      if Apply(ids, s, Insert(path, node)).0 != Ok {
        FailedOpChangesNothing(ids, s, Insert(path, node));
      }
      if HasNullByte(path) || BadNode(node) || path == [] {
        return InvalidArgument;
      }
      var r := Walk(ids, tree, path, node, mountIndex);
      tree, mountIndex := r.tree, r.count;
      return if r.ok then Ok else FailedPrecondition;
    }

    method RemovePath(path: Path) returns (status: Status)
      requires Valid()
      modifies this
      ensures Valid() && mountIndex == old(mountIndex)
      ensures (status, State(tree, mountIndex)) == Apply(ids, old(State(tree, mountIndex)), Remove(path))
      ensures status == Ok <==> Clean(path) && At(old(tree), path).Some?
    {
      hide Inv, Clean;
      RemoveIff(ids, State(tree, mountIndex), path);
      if Clean(path) {
        WhatIsThereCanBeRemoved(ids, State(tree, mountIndex), path);
      }
      StepInv(ids, State(tree, mountIndex), Remove(path));
      if HasNullByte(path) || path == [] {
        return InvalidArgument;
      }
      match Prune(tree, path)
      case None =>
        return NotFound;
      case Some(t) =>
        tree := t;
        return Ok;
    }

    /** ResolvePath as the loop it is: one component at a time. */
    method ResolvePath(path: Path) returns (r: Option<string>)
      ensures r == Resolve(tree, path)
    {
      var cur, tail := tree, path;
      while tail != []
        invariant Resolve(cur, tail) == Resolve(tree, path)
        decreases |tail|
      {
        if tail[0] !in cur.entries {
          if cur.node.Some? && cur.node.value.Dir? {
            return Some(Join(cur.node.value.outside, tail));
          }
          return None;
        }
        cur, tail := cur.entries[tail[0]], tail[1..];
      }
      return Outside(cur.node);
    }
  }
}
