/**
 * Symbolic labels in BPF code and bpf_resolve_jumps, which replaces them by
 * relative jumps in one backward pass.
 */
module BpfLabels {
  import opened Words
  import opened Bpf

  const BPF_MAXINSNS: nat := 4096
  const BPF_LABELS_MAX: nat := 256

  // JUMP(label) and LABEL(label): JA instructions marked in their jt/jf fields
  function JumpTo(id: u32): Instr { Instr(JMP_JA, 0xff, 0xff, id) }
  function Label(id: u32): Instr { Instr(JMP_JA, 0xfe, 0xfe, id) }

  predicate IsJump(i: Instr) { i.code == JMP_JA && i.jt == 0xff && i.jf == 0xff }
  predicate IsLabel(i: Instr) { i.code == JMP_JA && i.jt == 0xfe && i.jf == 0xfe }

  /** The code from the label on. */
  function Seek(code: seq<Instr>, id: u32): (s: Option<seq<Instr>>)
    ensures s.Some? ==> 0 < |s.value| <= |code| && s.value == code[|code| - |s.value|..]
  {
    if code == [] then None
    else if code[0] == Label(id) then Some(code)
    else Seek(code[1..], id)
  }

  /** Meaning of code with labels: a label does nothing, a jump goes to its label further ahead. */
  function RunLabelled(code: seq<Instr>, d: Data, r: Regs): Outcome
    decreases |code|
  {
    if code == [] then Exit(r)
    else if IsLabel(code[0]) then RunLabelled(code[1..], d, r)
    else if IsJump(code[0]) then
      var target := Seek(code[1..], code[0].k);
      if target.None? then Error else RunLabelled(target.value, d, r)
    else
      match Step(code[0], d, r)
      case Answer(v, constant) => Return(v, constant)
      case Fail => Error
      case Continue(r', skip) => if skip >= |code| then Error else RunLabelled(code[1 + skip..], d, r')
  }

  /** What the pass puts in the place of `i`, with `ahead` following it; None if it gives up. */
  function ResolveOne(i: Instr, ahead: seq<Instr>, nLabels: nat): Option<Instr> {
    if i.code != JMP_JA then Some(i)
    else if i.k >= nLabels then None
    else if IsJump(i) then
      var target := Seek(ahead, i.k);
      if target.None? || |ahead| - |target.value| >= TWO32 then None
      else Some(Stmt(JMP_JA, |ahead| - |target.value|))
    else if IsLabel(i) then
      if Seek(ahead, i.k).Some? then None else Some(Stmt(JMP_JA, 0))
    else Some(i)
  }

  function Resolve(code: seq<Instr>, nLabels: nat): (o: Option<seq<Instr>>)
    ensures o.Some? ==> |o.value| == |code|
  {
    if code == [] then Some([])
    else
      var tail := Resolve(code[1..], nLabels);
      var head := ResolveOne(code[0], code[1..], nLabels);
      if tail.None? || head.None? then None else Some([head.value] + tail.value)
  }

  lemma {:induction false} ResolveDrop(code: seq<Instr>, nLabels: nat, k: nat)
    requires Resolve(code, nLabels).Some? && k <= |code|
    ensures Resolve(code[k..], nLabels) == Some(Resolve(code, nLabels).value[k..])
  {
    if k == 0 {
      assert code[0..] == code;
    } else {
      ResolveDrop(code[1..], nLabels, k - 1);
      assert code[1..][k - 1..] == code[k..];
      var out := Resolve(code, nLabels).value;
      assert out[1..] == Resolve(code[1..], nLabels).value;
      assert out[1..][k - 1..] == out[k..];
    }
  }

  /** Resolving labels preserves meaning, whatever the code and the input. */
  lemma {:induction false} ResolvePreservesMeaning(code: seq<Instr>, nLabels: nat, d: Data, r: Regs)
    requires Resolve(code, nLabels).Some?
    ensures Run(Resolve(code, nLabels).value, d, r) == RunLabelled(code, d, r)
    decreases |code|, 1
  {
    if code != [] {
      if IsJump(code[0]) {
        var target := Seek(code[1..], code[0].k).value;
        var k := |code| - |target|;
        assert target == code[k..];
        JumpMeaning(Resolve(code, nLabels).value, k - 1, d, r);
        ResolveDrop(code, nLabels, k);
        ResolvePreservesMeaning(target, nLabels, d, r);
      } else if IsLabel(code[0]) {
        JumpMeaning(Resolve(code, nLabels).value, 0, d, r);
        ResolveDrop(code, nLabels, 1);
        ResolvePreservesMeaning(code[1..], nLabels, d, r);
      } else {
        PlainPreservesMeaning(code, nLabels, d, r);
      }
    }
  }

  lemma JumpMeaning(code: seq<Instr>, k: nat, d: Data, r: Regs)
    requires k < |code| && k < TWO32 && code[0] == Stmt(JMP_JA, k)
    ensures Run(code, d, r) == Run(code[1 + k..], d, r)
  {
    assert Step(code[0], d, r) == Continue(r, k);
  }

  lemma {:induction false} PlainPreservesMeaning(code: seq<Instr>, nLabels: nat, d: Data, r: Regs)
    requires code != [] && !IsJump(code[0]) && !IsLabel(code[0])
    requires Resolve(code, nLabels).Some?
    ensures Run(Resolve(code, nLabels).value, d, r) == RunLabelled(code, d, r)
    decreases |code|, 0
  {
    hide Step;
    match Step(code[0], d, r)
    case Continue(r', skip) =>
      if skip < |code| {
        ResolveDrop(code, nLabels, 1 + skip);
        ResolvePreservesMeaning(code[1 + skip..], nLabels, d, r');
      }
    case _ =>
  }

  /** A jump that resolves lands exactly at the label it names. */
  lemma ResolvedJumpLandsOnLabel(code: seq<Instr>, nLabels: nat, i: nat)
    requires Resolve(code, nLabels).Some? && i < |code| && IsJump(code[i])
    ensures var out := Resolve(code, nLabels).value;
            && out[i].code == JMP_JA
            && i + 1 + out[i].k < |code|
            && code[i + 1 + out[i].k] == Label(code[i].k)
  {
    ResolveDrop(code, nLabels, i);
    var ahead := code[i..][1..];
    SeekFinds(ahead, code[i].k);
    assert ahead == code[i + 1..];
  }

  lemma {:induction false} SeekFinds(code: seq<Instr>, id: u32)
    requires Seek(code, id).Some?
    ensures Seek(code, id).value[0] == Label(id)
  {
    if code[0] != Label(id) {
      SeekFinds(code[1..], id);
    }
  }

  // When resolving succeeds ----------------------------------------------------

  function LabelsOf(code: seq<Instr>): (s: set<u32>)
    ensures forall l: u32 :: l in s <==> Label(l) in code
  {
    if code == [] then {}
    else if IsLabel(code[0]) then {code[0].k} + LabelsOf(code[1..])
    else LabelsOf(code[1..])
  }

  lemma {:induction false} SeekIffLabel(code: seq<Instr>, id: u32)
    ensures Seek(code, id).Some? <==> id in LabelsOf(code)
  {
    if code != [] && code[0] != Label(id) {
      SeekIffLabel(code[1..], id);
    }
  }

  /** An instruction that can be resolved: its label is known, a jump has it ahead, a label does not have it again. */
  predicate Resolvable(code: seq<Instr>, i: nat, nLabels: nat)
    requires i < |code|
  {
    code[i].code == JMP_JA ==>
      && code[i].k < nLabels
      && (IsJump(code[i]) ==> Label(code[i].k) in code[i + 1..])
      && (IsLabel(code[i]) ==> Label(code[i].k) !in code[i + 1..])
  }

  predicate AllResolvable(code: seq<Instr>, nLabels: nat) {
    forall i: nat :: i < |code| ==> Resolvable(code, i, nLabels)
  }

  lemma ResolvesOneIff(code: seq<Instr>, nLabels: nat)
    requires 0 < |code| <= TWO32
    ensures ResolveOne(code[0], code[1..], nLabels).Some? <==> Resolvable(code, 0, nLabels)
  {
    SeekIffLabel(code[1..], code[0].k);
  }

  /** Resolving succeeds exactly if every instruction can be resolved. */
  lemma {:induction false} ResolvesIff(code: seq<Instr>, nLabels: nat)
    requires |code| <= TWO32
    ensures Resolve(code, nLabels).Some? <==> AllResolvable(code, nLabels)
  {
    if code != [] {
      var tail := code[1..];
      ResolvesIff(tail, nLabels);
      ResolvesOneIff(code, nLabels);
      hide ResolveOne;
      forall i: nat | i < |tail| ensures Resolvable(tail, i, nLabels) <==> Resolvable(code, i + 1, nLabels) {
        assert tail[i + 1..] == code[i + 2..];
      }
      if AllResolvable(tail, nLabels) && Resolvable(code, 0, nLabels) {
        forall i: nat | i < |code| ensures Resolvable(code, i, nLabels) {
          assert i > 0 ==> Resolvable(tail, i - 1, nLabels);
        }
      }
      if AllResolvable(code, nLabels) {
        forall i: nat | i < |tail| ensures Resolvable(tail, i, nLabels) {
          assert Resolvable(code, i + 1, nLabels);
        }
      }
    }
  }

  /** The table entry of a label: its position in the whole code, once the pass has seen it. */
  function LocationOf(code: seq<Instr>, offset: nat, id: u32): Option<nat>
    requires offset <= |code|
  {
    var s := Seek(code[offset..], id);
    if s.None? then None else Some(|code| - |s.value|)
  }

  /** One instruction of the pass, looked up in the table. */
  function ResolveInTable(i: Instr, offset: nat, location: seq<Option<nat>>): Option<Instr> {
    if i.code != JMP_JA then Some(i)
    else if i.k >= |location| then None
    else if IsJump(i) then
      if location[i.k].None? || !(0 <= location[i.k].value - (offset + 1) < TWO32) then None
      else Some(Stmt(JMP_JA, location[i.k].value - (offset + 1)))
    else if IsLabel(i) then
      if location[i.k].Some? then None else Some(Stmt(JMP_JA, 0))
    else Some(i)
  }

  ghost predicate TableOk(location: seq<Option<nat>>, code: seq<Instr>, offset: nat)
    requires offset <= |code|
  {
    forall l: u32 :: l < |location| ==> location[l] == LocationOf(code, offset, l)
  }

  function Recorded(location: seq<Option<nat>>, i: Instr, offset: nat): seq<Option<nat>> {
    if IsLabel(i) && i.k < |location| then location[i.k := Some(offset)] else location
  }

  lemma LocationStep(code: seq<Instr>, offset: nat, id: u32)
    requires offset < |code|
    ensures LocationOf(code, offset, id) ==
            if code[offset] == Label(id) then Some(offset) else LocationOf(code, offset + 1, id)
  {
    assert code[offset..][1..] == code[offset + 1..];
  }

  lemma TableStep(location: seq<Option<nat>>, code: seq<Instr>, offset: nat)
    requires offset < |code| && TableOk(location, code, offset + 1)
    ensures TableOk(Recorded(location, code[offset], offset), code, offset)
  {
    hide LocationOf;
    forall l: u32 | l < |location| ensures Recorded(location, code[offset], offset)[l] == LocationOf(code, offset, l) {
      LocationStep(code, offset, l);
    }
  }

  lemma TableLookup(location: seq<Option<nat>>, code: seq<Instr>, offset: nat)
    requires offset < |code| && TableOk(location, code, offset + 1)
    ensures ResolveInTable(code[offset], offset, location) == ResolveOne(code[offset], code[offset + 1..], |location|)
  {
    hide Seek;
    var i := code[offset];
    if i.k < |location| {
      assert location[i.k] == LocationOf(code, offset + 1, i.k);
    }
  }

  /** The body of the loop for one instruction. */
  method ResolveInstruction(instr: Instr, offset: nat, location: seq<Option<nat>>)
    returns (ok: bool, instr': Instr, location': seq<Option<nat>>)
    requires forall l :: 0 <= l < |location| && location[l].Some? ==> offset < location[l].value < TWO32
    ensures ok <==> ResolveInTable(instr, offset, location).Some?
    ensures ok ==> Some(instr') == ResolveInTable(instr, offset, location)
    ensures ok ==> location' == Recorded(location, instr, offset)
  {
    ok, instr', location' := true, instr, location;
    if instr.code != JMP_JA {
      return;
    }
    if instr.k >= |location| {
      ok := false;
      return;
    }
    if IsJump(instr) {
      if location[instr.k].None? {
        ok := false;
        return;
      }
      instr' := Stmt(JMP_JA, location[instr.k].value - (offset + 1));
    } else if IsLabel(instr) {
      if location[instr.k].Some? {
        ok := false;
        return;
      }
      location' := location[instr.k := Some(offset)];
      instr' := Stmt(JMP_JA, 0);
    }
  }

  /** What the pass has established when the instructions from `offset` on are done. */
  ghost predicate Passed(code: seq<Instr>, offset: nat, done: seq<Instr>, location: seq<Option<nat>>) {
    && offset <= |code| < TWO32
    && Resolve(code[offset..], |location|) == Some(done)
    && TableOk(location, code, offset)
  }

  lemma PassStart(code: seq<Instr>, location: seq<Option<nat>>)
    requires |code| < TWO32
    requires forall l :: 0 <= l < |location| ==> location[l] == None
    ensures Passed(code, |code|, [], location)
  {
  }

  lemma PassTable(code: seq<Instr>, offset: nat, done: seq<Instr>, location: seq<Option<nat>>)
    requires Passed(code, offset, done, location) && |location| < TWO32
    ensures forall l :: 0 <= l < |location| && location[l].Some? ==> offset <= location[l].value < TWO32
  {
    forall l | 0 <= l < |location| && location[l].Some? ensures offset <= location[l].value < TWO32 {
      assert location[l] == LocationOf(code, offset, l);
    }
  }

  lemma PassStep(code: seq<Instr>, offset: nat, done: seq<Instr>, location: seq<Option<nat>>)
    requires offset < |code| && Passed(code, offset + 1, done, location)
    ensures var o := ResolveInTable(code[offset], offset, location);
            if o.None? then Resolve(code, |location|).None?
            else Passed(code, offset, [o.value] + done, Recorded(location, code[offset], offset))
  {
    hide ResolveOne, ResolveInTable, TableOk, Resolve;
    TableStep(location, code, offset);
    TableLookup(location, code, offset);
    ResolveStep(code, offset, |location|);
  }

  /** In-place backward pass over the instruction array, with a table of label locations. */
  method BpfResolveJumps(filter: array<Instr>, nLabels: nat) returns (ok: bool)
    modifies filter
    ensures ok <==> && 1 <= filter.Length <= BPF_MAXINSNS
                    && nLabels <= BPF_LABELS_MAX
                    && AllResolvable(old(filter[..]), nLabels)
    ensures ok <==> && 1 <= filter.Length <= BPF_MAXINSNS
                    && nLabels <= BPF_LABELS_MAX
                    && Resolve(old(filter[..]), nLabels).Some?
    ensures ok ==> filter[..] == Resolve(old(filter[..]), nLabels).value
  {
    hide Resolve, AllResolvable;
    if filter.Length < 1 || filter.Length > BPF_MAXINSNS {
      return false;
    }
    if nLabels > BPF_LABELS_MAX {
      return false;
    }
    ResolvesIff(filter[..], nLabels);
    ok := ResolveBackwards(filter, nLabels);
  }

  /** The pass itself. */
  method ResolveBackwards(filter: array<Instr>, nLabels: nat) returns (ok: bool)
    requires filter.Length < TWO32 && nLabels < TWO32
    modifies filter
    ensures ok <==> Resolve(old(filter[..]), nLabels).Some?
    ensures ok ==> filter[..] == Resolve(old(filter[..]), nLabels).value
  {
    hide Resolve, ResolveInTable, Passed, IsJump, IsLabel;
    var location: seq<Option<nat>> := seq(nLabels, _ => None);
    ghost var code := filter[..];
    PassStart(code, location);
    var offset := filter.Length;
    ghost var done: seq<Instr> := [];
    while offset > 0
      invariant 0 <= offset <= filter.Length && |location| == nLabels
      invariant |done| == filter.Length - offset
      invariant forall j :: 0 <= j < offset ==> filter[j] == code[j]
      invariant forall j :: offset <= j < filter.Length ==> filter[j] == done[j - offset]
      invariant Passed(code, offset, done, location)
    {
      PassTable(code, offset, done, location);
      offset := offset - 1;
      PassStep(code, offset, done, location);
      var found, instr', location' := ResolveInstruction(filter[offset], offset, location);
      if !found {
        return false;
      }
      filter[offset] := instr';
      location := location';
      done := [instr'] + done;
    }
    PassEnd(code, done, location);
    assert filter[..] == done;
    return true;
  }

  lemma PassEnd(code: seq<Instr>, done: seq<Instr>, location: seq<Option<nat>>)
    ensures Passed(code, 0, done, location) ==> Resolve(code, |location|) == Some(done)
  {
    assert code[0..] == code;
  }

  lemma ResolveStep(code: seq<Instr>, offset: nat, nLabels: nat)
    requires offset < |code|
    ensures var head := ResolveOne(code[offset], code[offset + 1..], nLabels);
            var tail := Resolve(code[offset + 1..], nLabels);
            && (head.None? ==> Resolve(code, nLabels).None?)
            && (head.Some? && tail.Some? ==> Resolve(code[offset..], nLabels) == Some([head.value] + tail.value))
  {
    assert code[offset..][1..] == code[offset + 1..];
    if Resolve(code, nLabels).Some? {
      ResolveDrop(code, nLabels, offset);
    }
  }
}
