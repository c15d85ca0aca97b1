/**
 * MoveFDs: moves file descriptors to given numbers when sources and targets may overlap or
 * form cycles.  Descriptors are owned by FDClosers; assigning to a closer closes what it held.
 */
module MoveFds {
  import opened Words

  datatype File = File(id: nat)

  /** What each descriptor number refers to; -1 is never open. */
  type Table = t: map<int, File> | INVALID !in t

  const INVALID: int := -1

  predicate ValidFd(fd: int) { fd != INVALID }

  /** Closers hold distinct open descriptors, or none. */
  ghost predicate Owned(table: Table, closers: seq<int>) {
    && (forall i :: 0 <= i < |closers| && ValidFd(closers[i]) ==> closers[i] in table)
    && (forall i, j :: 0 <= i < j < |closers| && ValidFd(closers[i]) ==> closers[i] != closers[j])
  }

  /** No two descriptors are to go to the same number. */
  ghost predicate DistinctTargets(closers: seq<int>, targets: seq<int>) {
    && |closers| == |targets|
    && (forall i :: 0 <= i < |targets| ==> ValidFd(targets[i]))
    && (forall i, j ::
          0 <= i < j < |closers| && ValidFd(closers[i]) && ValidFd(closers[j]) ==> targets[i] != targets[j])
  }

  /** No closer holds `fd`. */
  ghost predicate Unheld(closers: seq<int>, fd: int) {
    forall i :: 0 <= i < |closers| ==> closers[i] != fd
  }

  ghost predicate SameAt(table: Table, closers: seq<int>, table': Table, fd: int) {
    && (fd in table' <==> fd in table && Unheld(closers, fd))
    && (fd in table' ==> table'[fd] == table[fd])
  }

  /**
   * The simultaneous move: every valid closer ends up at its target with the file it held before,
   * and every other number is as it was before, or closed if it was a source.
   */
  ghost predicate Moved(table: Table, closers: seq<int>, targets: seq<int>, table': Table, closers': seq<int>)
    requires Owned(table, closers) && |closers| == |targets|
  {
    && |closers'| == |closers|
    && (forall i :: 0 <= i < |closers| && ValidFd(closers[i]) ==>
          closers'[i] == targets[i] && targets[i] in table' && table'[targets[i]] == table[closers[i]])
    && (forall i :: 0 <= i < |closers| && !ValidFd(closers[i]) ==> !ValidFd(closers'[i]))
    && (forall fd :: Unheld(closers', fd) ==> SameAt(table, closers, table', fd))
  }

  /** There is nothing to move. */
  ghost predicate Settled(closers: seq<int>, targets: seq<int>)
    requires |closers| == |targets|
  {
    forall i :: 0 <= i < |closers| ==> !ValidFd(closers[i]) || closers[i] == targets[i]
  }

  /** The outcome does not depend on which numbers dup happened to pick. */
  lemma MovedIsUnique(t0: Table, c0: seq<int>, targets: seq<int>, t1: Table, c1: seq<int>, t2: Table, c2: seq<int>)
    requires Owned(t0, c0) && |c0| == |targets|
    requires Moved(t0, c0, targets, t1, c1) && Moved(t0, c0, targets, t2, c2)
    ensures t1 == t2 && c1 == c2
  {
    assert forall i :: 0 <= i < |c0| ==> c1[i] == c2[i];
    forall fd ensures (fd in t1 <==> fd in t2) && (fd in t1 ==> t1[fd] == t2[fd]) {
      if Unheld(c1, fd) {
        assert SameAt(t0, c0, t1, fd) && SameAt(t0, c0, t2, fd);
      } else {
        var i :| 0 <= i < |c1| && c1[i] == fd;
        assert ValidFd(c0[i]) ==> t1[fd] == t2[fd];
      }
    }
  }

  /** The state of a move: descriptor table, closers, and fd_map from descriptor to closer. */
  datatype State = State(table: Table, closers: seq<int>, fdMap: map<int, nat>)

  /** Closer `j` still holds its file, somewhere. */
  ghost predicate Holds(t0: Table, c0: seq<int>, s: State, j: nat)
    requires Owned(t0, c0) && j < |c0| == |s.closers|
  {
    if ValidFd(c0[j]) then
      ValidFd(s.closers[j]) && s.closers[j] in s.table && s.table[s.closers[j]] == t0[c0[j]]
    else !ValidFd(s.closers[j])
  }

  /** Closers below `i` have arrived; those from `i` on are known to fd_map and squat on no bystander's number. */
  ghost predicate Placed(t0: Table, c0: seq<int>, targets: seq<int>, s: State, i: nat, j: nat)
    requires j < |c0| == |s.closers| == |targets|
  {
    ValidFd(c0[j]) ==>
      if j < i then s.closers[j] == targets[j]
      else
        && s.closers[j] in s.fdMap && s.fdMap[s.closers[j]] == j
        && !(s.closers[j] in t0 && Unheld(c0, s.closers[j]))
  }

  ghost predicate Inv(t0: Table, c0: seq<int>, targets: seq<int>, s: State, i: nat)
    requires Owned(t0, c0) && DistinctTargets(c0, targets)
  {
    && |s.closers| == |c0|
    && (forall j: nat {:trigger Holds(t0, c0, s, j)} :: j < |c0| ==> Holds(t0, c0, s, j))
    && (forall j: nat {:trigger Placed(t0, c0, targets, s, i, j)} :: j < |c0| ==> Placed(t0, c0, targets, s, i, j))
    && (forall j, k :: 0 <= j < k < |c0| && ValidFd(s.closers[j]) ==> s.closers[j] != s.closers[k])
    && (forall fd :: fd in s.fdMap ==> s.fdMap[fd] < |c0| && s.closers[s.fdMap[fd]] == fd)
    && INVALID !in s.fdMap
    && (forall fd :: Unheld(s.closers, fd) ==> SameAt(t0, c0, s.table, fd))
  }

  /** Closer `k` steps aside to the unused number `tmp`. */
  function StepAside(s: State, k: nat, tmp: int): State
    requires k < |s.closers| && s.closers[k] in s.table && ValidFd(tmp)
  {
    var fd := s.closers[k];
    State(s.table[tmp := s.table[fd]] - {fd}, s.closers[k := tmp], s.fdMap[tmp := k] - {fd})
  }

  /** Closer `i` moves to its target. */
  function Place(s: State, i: nat, target: int): State
    requires i < |s.closers| && s.closers[i] in s.table && ValidFd(target)
  {
    var fd := s.closers[i];
    State(s.table[target := s.table[fd]] - {fd}, s.closers[i := target], s.fdMap - {fd})
  }

  lemma UnheldBefore(closers: seq<int>, k: nat, fd: int, x: int)
    requires k < |closers| && Unheld(closers[k := fd], x) && x != closers[k]
    ensures Unheld(closers, x)
  {
    forall j | 0 <= j < |closers| ensures closers[j] != x {
      assert j != k ==> closers[k := fd][j] == closers[j];
    }
  }

  lemma StepAsideInv(t0: Table, c0: seq<int>, targets: seq<int>, s: State, i: nat, k: nat, tmp: int)
    requires Owned(t0, c0) && DistinctTargets(c0, targets) && Inv(t0, c0, targets, s, i)
    requires i <= k < |c0| && ValidFd(c0[k]) && ValidFd(tmp) && tmp !in s.table
    ensures s.closers[k] in s.table && Inv(t0, c0, targets, StepAside(s, k, tmp), i)
    ensures Unheld(StepAside(s, k, tmp).closers, s.closers[k])
  {
    assert Holds(t0, c0, s, k) && Placed(t0, c0, targets, s, i, k);
    var s', fd := StepAside(s, k, tmp), s.closers[k];
    forall j: nat | j < |c0| ensures s.closers[j] != tmp {
      assert Holds(t0, c0, s, j);
    }
    assert SameAt(t0, c0, s.table, tmp);
    forall j: nat | j < |c0| ensures Holds(t0, c0, s', j) && Placed(t0, c0, targets, s', i, j) {
      assert Holds(t0, c0, s, j) && Placed(t0, c0, targets, s, i, j);
    }
    forall x | Unheld(s'.closers, x) ensures SameAt(t0, c0, s'.table, x) {
      assert s'.closers[k] == tmp;
      if x != fd {
        UnheldBefore(s.closers, k, tmp, x);
      }
    }
    assert Unheld(s'.closers, fd);
  }

  lemma PlaceInv(t0: Table, c0: seq<int>, targets: seq<int>, s: State, i: nat)
    requires Owned(t0, c0) && DistinctTargets(c0, targets) && Inv(t0, c0, targets, s, i)
    requires i < |c0| && ValidFd(c0[i]) && Unheld(s.closers, targets[i])
    ensures s.closers[i] in s.table && Inv(t0, c0, targets, Place(s, i, targets[i]), i + 1)
  {
    assert Holds(t0, c0, s, i) && Placed(t0, c0, targets, s, i, i);
    var s', fd, i' := Place(s, i, targets[i]), s.closers[i], i + 1;
    forall j: nat | j < |c0| ensures Holds(t0, c0, s', j) && Placed(t0, c0, targets, s', i', j) {
      assert Holds(t0, c0, s, j) && Placed(t0, c0, targets, s, i, j);
    }
    forall x | Unheld(s'.closers, x) ensures SameAt(t0, c0, s'.table, x) {
      assert s'.closers[i] == targets[i];
      if x != fd {
        UnheldBefore(s.closers, i, targets[i], x);
      }
    }
  }

  /** A closer that is already where it should be, or holds nothing, needs no step. */
  lemma SkipInv(t0: Table, c0: seq<int>, targets: seq<int>, s: State, i: nat)
    requires Owned(t0, c0) && DistinctTargets(c0, targets) && Inv(t0, c0, targets, s, i)
    requires i < |c0| && (!ValidFd(s.closers[i]) || s.closers[i] == targets[i])
    ensures Inv(t0, c0, targets, s, i + 1)
  {
    assert Holds(t0, c0, s, i);
    var i' := i + 1;
    forall j: nat | j < |c0| ensures Placed(t0, c0, targets, s, i', j) {
      assert Placed(t0, c0, targets, s, i, j);
    }
  }

  /** A number fd_map does not know is held by nobody who still has to move, nor by anybody who has moved. */
  lemma Collision(t0: Table, c0: seq<int>, targets: seq<int>, s: State, i: nat)
    requires Owned(t0, c0) && DistinctTargets(c0, targets) && Inv(t0, c0, targets, s, i)
    requires i < |c0|
    ensures |s.closers| == |c0| && (ValidFd(s.closers[i]) <==> ValidFd(c0[i]))
    ensures ValidFd(c0[i]) ==>
              && s.closers[i] in s.table
              && (targets[i] !in s.fdMap ==> Unheld(s.closers, targets[i]))
              && (targets[i] in s.fdMap ==>
                    var k := s.fdMap[targets[i]];
                    i <= k < |c0| && ValidFd(c0[k]) && s.closers[k] == targets[i] && targets[i] in s.table)
  {
    assert Holds(t0, c0, s, i);
    if !ValidFd(c0[i]) {
      return;
    }
    forall j: nat | j < |c0| && s.closers[j] == targets[i]
      ensures j >= i && ValidFd(c0[j]) && targets[i] in s.fdMap && targets[i] in s.table
    {
      assert Holds(t0, c0, s, j) && Placed(t0, c0, targets, s, i, j);
    }
  }

  class Process {
    var table: Table
    var closers: seq<int>
    /** How many system calls there were, and how many of them answered with an error. */
    ghost var calls: nat
    ghost var errors: nat

    /** dup(2): any unused number, or -1. */
    method Dup(fd: int) returns (r: int)
      requires fd in table
      modifies `table, `calls, `errors
      ensures calls == old(calls) + 1 && errors == old(errors) + if r == INVALID then 1 else 0
      ensures r == INVALID ==> table == old(table)
      ensures r != INVALID ==> r !in old(table) && table == old(table)[r := old(table)[fd]]
    {
      calls := calls + 1;
      r :| r == INVALID || (r >= 0 && r !in table);
      if r == INVALID {
        errors := errors + 1;
      } else {
        table := table[r := table[fd]];
      }
    }

    /** dup2(2) onto `target`, or an error. */
    method Dup2(fd: int, target: int) returns (ok: bool)
      requires fd in table && ValidFd(target)
      modifies `table, `calls, `errors
      ensures calls == old(calls) + 1 && errors == old(errors) + if ok then 0 else 1
      ensures ok ==> table == old(table)[target := old(table)[fd]]
      ensures !ok ==> table == old(table)
    {
      calls := calls + 1;
      ok := *;
      if ok {
        table := table[target := table[fd]];
      } else {
        errors := errors + 1;
      }
    }

    /** `*closer = FDCloser(fd)`: the closer takes over `fd` and what it held is closed. */
    method Assign(i: nat, fd: int)
      requires i < |closers|
      modifies `table, `closers
      ensures closers == old(closers)[i := fd]
      ensures table == old(table) - {old(closers)[i]}
    {
      table := table - {closers[i]};
      closers := closers[i := fd];
    }

    /** ok is false where the process aborts, which it does exactly when dup or dup2 has failed. */
    method MoveFDs(targets: seq<int>) returns (ok: bool)
      requires Owned(table, closers) && DistinctTargets(closers, targets)
      modifies this
      ensures ok <==> errors == old(errors)
      ensures ok ==> Moved(old(table), old(closers), targets, table, closers)
      // nothing is asked of the kernel for closers that hold nothing or are where they should be
      ensures Settled(old(closers), targets) ==> ok && calls == old(calls)
      ensures calls <= old(calls) + 2 * |targets|
    {
      hide Inv, Moved;
      var fdMap: map<int, nat> := map[];
      for i := 0 to |targets|
        invariant table == old(table) && closers == old(closers) && calls == old(calls) && errors == old(errors)
        invariant forall fd :: fd in fdMap ==> ValidFd(fd) && fdMap[fd] < i && closers[fdMap[fd]] == fd
        invariant forall j :: 0 <= j < i && ValidFd(closers[j]) ==> closers[j] in fdMap && fdMap[closers[j]] == j
      {
        if ValidFd(closers[i]) {
          fdMap := fdMap[closers[i] := i];
        }
      }
      ghost var t0, c0 := table, closers;
      StartInv(t0, c0, targets, fdMap);
      for i := 0 to |targets|
        invariant t0 == old(table) && c0 == old(closers)
        invariant Inv(t0, c0, targets, State(table, closers, fdMap), i)
        invariant errors == old(errors) && calls <= old(calls) + 2 * i
        invariant Settled(c0, targets) ==> calls == old(calls) && closers == c0
      {
        ok, fdMap := MoveOne(t0, c0, targets, i, fdMap);
        if !ok {
          return;
        }
      }
      ok := true;
      Arrived(t0, c0, targets, State(table, closers, fdMap));
    }

    /** The body of the second loop. */
    method MoveOne(ghost t0: Table, ghost c0: seq<int>, targets: seq<int>, i: nat, map0: map<int, nat>)
      returns (ok: bool, fdMap: map<int, nat>)
      requires Owned(t0, c0) && DistinctTargets(c0, targets) && i < |c0|
      requires Inv(t0, c0, targets, State(table, closers, map0), i)
      modifies this
      ensures ok ==> Inv(t0, c0, targets, State(table, closers, fdMap), i + 1)
      ensures ok <==> errors == old(errors)
      ensures calls <= old(calls) + 2
      ensures !ValidFd(old(closers)[i]) || old(closers)[i] == targets[i] ==>
                ok && calls == old(calls) && closers == old(closers)
      // stepping aside takes a call of its own, and only an occupied target asks for it
      ensures calls == old(calls) + 2 ==> targets[i] in map0
    {
      hide Inv;
      fdMap := map0;
      ghost var s := State(table, closers, fdMap);
      Collision(t0, c0, targets, s, i);
      if !ValidFd(closers[i]) || closers[i] == targets[i] {
        SkipInv(t0, c0, targets, s, i);
        return true, fdMap;
      }
      if targets[i] in fdMap {
        var k := fdMap[targets[i]];
        var fd := Dup(targets[i]);
        if fd == INVALID {
          return false, fdMap;
        }
        StepAsideInv(t0, c0, targets, s, i, k, fd);
        Assign(k, fd);
        fdMap := fdMap[fd := k];
        fdMap := fdMap - {targets[i]};
        s := StepAside(s, k, fd);
      }
      ok := Dup2(closers[i], targets[i]);
      if !ok {
        return;
      }
      fdMap := fdMap - {closers[i]};
      PlaceInv(t0, c0, targets, s, i);
      Assign(i, targets[i]);
    }
  }

  lemma StartInv(t0: Table, c0: seq<int>, targets: seq<int>, fdMap: map<int, nat>)
    requires Owned(t0, c0) && DistinctTargets(c0, targets)
    requires forall fd :: fd in fdMap ==> ValidFd(fd) && fdMap[fd] < |c0| && c0[fdMap[fd]] == fd
    requires forall j :: 0 <= j < |c0| && ValidFd(c0[j]) ==> c0[j] in fdMap && fdMap[c0[j]] == j
    ensures Inv(t0, c0, targets, State(t0, c0, fdMap), 0)
  {
  }

  lemma Arrived(t0: Table, c0: seq<int>, targets: seq<int>, s: State)
    requires Owned(t0, c0) && DistinctTargets(c0, targets) && Inv(t0, c0, targets, s, |c0|)
    ensures Moved(t0, c0, targets, s.table, s.closers)
  {
    var n := |c0|;
    forall i | 0 <= i < |c0|
      ensures ValidFd(c0[i]) ==>
                s.closers[i] == targets[i] && targets[i] in s.table && s.table[targets[i]] == t0[c0[i]]
      ensures !ValidFd(c0[i]) ==> !ValidFd(s.closers[i])
    {
      assert Holds(t0, c0, s, i) && Placed(t0, c0, targets, s, n, i);
    }
  }
}
