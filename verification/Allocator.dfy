/**
 * SimpleAllocator: a best-fit allocator over one region.  Blocks are kept in a map
 * ordered by address, free blocks also in an index ordered by size and address.
 */
module Allocator {
  import opened Words

  const ALIGNMENT: nat := 8
  const MAX_ALLOCATABLE: nat := 0xffff_ffff_ffff_fff0

  datatype Status = InvalidArgument | ResourceExhausted
  datatype Result<T> = Ok(value: T) | Err(status: Status)

  /** Rounds up to the alignment; zero and sizes near the top of the address space are refused. */
  function AlignSize(size: nat): (r: Option<nat>)
    ensures r.None? <==> size == 0 || size > MAX_ALLOCATABLE
    ensures r.Some? ==> r.value % ALIGNMENT == 0 && size <= r.value < size + ALIGNMENT
  {
    if size == 0 || size > MAX_ALLOCATABLE then None
    else Some((size + ALIGNMENT - 1) / ALIGNMENT * ALIGNMENT)
  }

  datatype Block = Block(isFree: bool, size: nat)
  type Blocks = map<nat, Block>

  /** MetadataComp: by size, then by address. */
  datatype Key = Key(size: nat, addr: nat) {
    predicate AtMost(other: Key) {
      size < other.size || (size == other.size && addr <= other.addr)
    }
  }

  // The invariant ---------------------------------------------------------------------

  ghost predicate BlockOk(base: nat, end: nat, blocks: Blocks, a: nat)
    requires a in blocks
  {
    && base <= a
    && a % ALIGNMENT == 0
    && (0 < blocks[a].size || (base == end && blocks[a].isFree))
    && a + blocks[a].size <= end
    && (a + blocks[a].size == end || a + blocks[a].size in blocks)
    && (!blocks[a].isFree ==> blocks[a].size % ALIGNMENT == 0)
  }

  /** The blocks cover [base, end) without gap or overlap. */
  ghost predicate Tiling(base: nat, end: nat, blocks: Blocks) {
    && base in blocks
    && (forall a {:trigger BlockOk(base, end, blocks, a)} :: a in blocks ==> BlockOk(base, end, blocks, a))
    && (forall a, b {:trigger Apart(blocks, a, b)} :: a in blocks && b in blocks ==> Apart(blocks, a, b))
  }

  ghost predicate Apart(blocks: Blocks, a: nat, b: nat)
    requires a in blocks && b in blocks
  {
    a < b ==> a + blocks[a].size <= b
  }

  /** The index holds exactly the free blocks, under their current keys. */
  ghost predicate Index(blocks: Blocks, free: set<Key>) {
    forall k: Key :: k in free <==> k.addr in blocks && blocks[k.addr] == Block(true, k.size)
  }

  ghost predicate Inv(base: nat, end: nat, blocks: Blocks, free: set<Key>) {
    Tiling(base, end, blocks) && Index(blocks, free)
  }

  /** Block `a` and the one behind it are not both free. */
  ghost predicate Separated(blocks: Blocks, a: nat)
    requires a in blocks
  {
    var n := a + blocks[a].size;
    !(blocks[a].isFree && n in blocks && n != a && blocks[n].isFree)
  }

  /** No two neighbouring blocks are free. */
  ghost predicate Coalesced(blocks: Blocks) {
    forall a {:trigger Separated(blocks, a)} :: a in blocks ==> Separated(blocks, a)
  }

  /** The live blocks and their sizes. */
  ghost function Live(blocks: Blocks): map<nat, nat> {
    map a | a in blocks && !blocks[a].isFree :: blocks[a].size
  }

  /** `a` is the start of a free block. */
  predicate FreeAt(blocks: Blocks, a: nat) {
    a in blocks && blocks[a].isFree
  }

  // Changing one block ------------------------------------------------------------------

  lemma TilingSetFree(base: nat, end: nat, blocks: Blocks, a: nat, isFree: bool)
    requires Tiling(base, end, blocks) && a in blocks
    requires !isFree ==> blocks[a].size > 0 && blocks[a].size % ALIGNMENT == 0
    ensures Tiling(base, end, blocks[a := Block(isFree, blocks[a].size)])
  {
    var b' := blocks[a := Block(isFree, blocks[a].size)];
    forall x | x in b' ensures BlockOk(base, end, b', x) {
      assert BlockOk(base, end, blocks, x);
    }
    forall x, y | x in b' && y in b' ensures Apart(b', x, y) {
      assert Apart(blocks, x, y);
    }
  }

  function Split(blocks: Blocks, a: nat, size: nat): Blocks
    requires a in blocks && size <= blocks[a].size
  {
    blocks[a := Block(blocks[a].isFree, size)][a + size := Block(true, blocks[a].size - size)]
  }

  lemma SplitPointIsNew(base: nat, end: nat, blocks: Blocks, a: nat, size: nat)
    requires Tiling(base, end, blocks) && a in blocks && 0 < size < blocks[a].size
    ensures a + size !in blocks
  {
    assert a + size in blocks ==> Apart(blocks, a, a + size);
  }

  lemma SplitApart(blocks: Blocks, a: nat, size: nat, x: nat, y: nat)
    requires a in blocks && a + size !in blocks && 0 < size < blocks[a].size
    requires forall u, v {:trigger Apart(blocks, u, v)} :: u in blocks && v in blocks ==> Apart(blocks, u, v)
    requires x in Split(blocks, a, size) && y in Split(blocks, a, size)
    ensures Apart(Split(blocks, a, size), x, y)
  {
    if x == a + size {
      if y != x {
        assert Apart(blocks, a, y);
      }
    } else if y == a + size {
      assert Apart(blocks, x, a) && Apart(blocks, a, x);
    } else {
      assert Apart(blocks, x, y);
    }
  }

  lemma TilingSplit(base: nat, end: nat, blocks: Blocks, a: nat, size: nat)
    requires Tiling(base, end, blocks) && a in blocks
    requires 0 < size < blocks[a].size && size % ALIGNMENT == 0
    ensures a + size !in blocks
    ensures Tiling(base, end, Split(blocks, a, size))
  {
    hide Apart;
    var b' := Split(blocks, a, size);
    SplitPointIsNew(base, end, blocks, a, size);
    assert BlockOk(base, end, blocks, a);
    forall x | x in b' ensures BlockOk(base, end, b', x) {
      if x != a + size {
        assert BlockOk(base, end, blocks, x);
      }
    }
    forall x, y | x in b' && y in b' ensures Apart(b', x, y) {
      SplitApart(blocks, a, size, x, y);
    }
  }

  /** A block swallows the one behind it. */
  function Merge(blocks: Blocks, a: nat, isFree: bool): Blocks
    requires a in blocks && a + blocks[a].size in blocks
  {
    var n := a + blocks[a].size;
    (map x | x in blocks && x != n :: blocks[x])[a := Block(isFree, blocks[a].size + blocks[n].size)]
  }

  lemma TilingMerge(base: nat, end: nat, blocks: Blocks, a: nat)
    requires Tiling(base, end, blocks) && a in blocks && a + blocks[a].size in blocks
    ensures Tiling(base, end, Merge(blocks, a, true))
  {
    var n := a + blocks[a].size;
    var b' := Merge(blocks, a, true);
    assert BlockOk(base, end, blocks, a) && BlockOk(base, end, blocks, n);
    forall x | x in b' ensures BlockOk(base, end, b', x) {
      assert BlockOk(base, end, blocks, x) && Apart(blocks, x, a) && Apart(blocks, a, x);
    }
    forall x, y | x in b' && y in b' ensures Apart(b', x, y) {
      assert Apart(blocks, x, y) && Apart(blocks, n, y);
    }
  }

  /** The next block in address order starts where this one ends. */
  lemma NextBlock(base: nat, end: nat, blocks: Blocks, a: nat, n: nat)
    requires Tiling(base, end, blocks) && a in blocks
    requires n in blocks && a < n && forall x :: x in blocks && a < x ==> n <= x
    ensures n == a + blocks[a].size
  {
    assert BlockOk(base, end, blocks, a) && BlockOk(base, end, blocks, n) && Apart(blocks, a, n);
  }

  /** What std::next finds, or that nothing is behind the block. */
  lemma NextFound(base: nat, end: nat, blocks: Blocks, a: nat, next: Option<nat>)
    requires Tiling(base, end, blocks) && a in blocks
    requires next.None? ==> forall x :: x in blocks ==> x <= a
    requires next.Some? ==>
               next.value in blocks && a < next.value && forall x :: x in blocks && a < x ==> next.value <= x
    ensures var n := a + blocks[a].size;
            if next.Some? then next.value == n && n != a else n == a || n !in blocks
  {
    if next.Some? {
      NextBlock(base, end, blocks, a, next.value);
    }
  }

  /** The previous block in address order ends where this one starts. */
  lemma PreviousBlock(base: nat, end: nat, blocks: Blocks, a: nat, p: nat)
    requires Tiling(base, end, blocks) && a in blocks
    requires p in blocks && p < a && forall x :: x in blocks && x < a ==> x <= p
    ensures p + blocks[p].size == a
  {
    assert BlockOk(base, end, blocks, p) && BlockOk(base, end, blocks, a) && Apart(blocks, p, a);
  }

  // The operations on blocks and index ----------------------------------------------------

  datatype Store = Store(blocks: Blocks, free: set<Key>)

  ghost predicate StoreInv(base: nat, end: nat, s: Store) { Inv(base, end, s.blocks, s.free) }

  /** Taking `size` bytes from the front of the free block `k`. */
  function Grab(s: Store, k: Key, size: nat): Store
    requires k.addr in s.blocks && size <= s.blocks[k.addr].size
  {
    var taken := s.blocks[k.addr := Block(false, s.blocks[k.addr].size)];
    if k.size > size then
      Store(Split(taken, k.addr, size), s.free - {k} + {Key(k.size - size, k.addr + size)})
    else
      Store(taken, s.free - {k})
  }

  lemma GrabInv(base: nat, end: nat, s: Store, k: Key, size: nat)
    requires StoreInv(base, end, s) && k in s.free && 0 < size <= k.size && size % ALIGNMENT == 0
    ensures k.addr in s.blocks && s.blocks[k.addr] == Block(true, k.size)
    ensures StoreInv(base, end, Grab(s, k, size))
    ensures k.addr !in Live(s.blocks)
    ensures Live(Grab(s, k, size).blocks) == Live(s.blocks)[k.addr := size]
  {
    var a := k.addr;
    var mid := if k.size > size then Split(s.blocks, a, size) else s.blocks;
    assert BlockOk(base, end, s.blocks, a);
    if k.size > size {
      TilingSplit(base, end, s.blocks, a, size);
    }
    TilingSetFree(base, end, mid, a, false);
    assert Grab(s, k, size).blocks == mid[a := Block(false, size)];
  }

  lemma GrabKeeps(base: nat, end: nat, s: Store, k: Key, size: nat, x: nat)
    requires StoreInv(base, end, s) && 0 < size <= k.size
    requires k.addr in s.blocks && s.blocks[k.addr] == Block(true, k.size)
    requires x in s.blocks && x != k.addr
    ensures var b := Grab(s, k, size).blocks; k.addr in b && b[k.addr] == Block(false, size)
    ensures var b := Grab(s, k, size).blocks; x in b && b[x] == s.blocks[x]
  {
    assert Apart(s.blocks, k.addr, x);
  }

  lemma GrabCoalesced(base: nat, end: nat, s: Store, k: Key, size: nat)
    requires StoreInv(base, end, s) && k in s.free && 0 < size <= k.size && size % ALIGNMENT == 0
    requires Coalesced(s.blocks)
    ensures Coalesced(Grab(s, k, size).blocks)
  {
    var a := k.addr;
    var b' := Grab(s, k, size).blocks;
    assert BlockOk(base, end, s.blocks, a);
    forall x | x in b' ensures Separated(b', x) {
      if x in s.blocks {
        assert Separated(s.blocks, x);
        assert BlockOk(base, end, s.blocks, x) && Apart(s.blocks, x, a) && Apart(s.blocks, a, x);
      } else {
        assert Separated(s.blocks, a);
        assert x + b'[x].size == a + s.blocks[a].size;
      }
    }
  }

  /** Freeing block `a`: it swallows a free successor, and a free predecessor swallows it. */
  function FreeForward(s: Store, a: nat): Store
    requires a in s.blocks
  {
    var n := a + s.blocks[a].size;
    if n in s.blocks && s.blocks[n].isFree then
      Store(Merge(s.blocks, a, true), s.free - {Key(s.blocks[n].size, n)})
    else
      Store(s.blocks[a := Block(true, s.blocks[a].size)], s.free)
  }

  function FreeBackward(s: Store, a: nat, prev: Option<nat>): Store
    requires a in s.blocks
    requires prev.Some? ==> prev.value in s.blocks && prev.value + s.blocks[prev.value].size == a
  {
    if prev.Some? && s.blocks[prev.value].isFree then
      var p := prev.value;
      Store(Merge(s.blocks, p, true),
            s.free - {Key(s.blocks[p].size, p)} + {Key(s.blocks[p].size + s.blocks[a].size, p)})
    else
      Store(s.blocks, s.free + {Key(s.blocks[a].size, a)})
  }

  /** The index holds every free block but `a`, which is on its way. */
  ghost predicate IndexBut(blocks: Blocks, free: set<Key>, a: nat) {
    forall k: Key :: k in free <==> k.addr in blocks && k.addr != a && blocks[k.addr] == Block(true, k.size)
  }

  lemma FreeForwardTiling(base: nat, end: nat, s: Store, a: nat)
    requires Tiling(base, end, s.blocks) && a in s.blocks
    ensures Tiling(base, end, FreeForward(s, a).blocks)
    ensures var t := FreeForward(s, a); a in t.blocks && t.blocks[a].isFree
  {
    var n := a + s.blocks[a].size;
    if n in s.blocks && s.blocks[n].isFree {
      TilingMerge(base, end, s.blocks, a);
    } else {
      TilingSetFree(base, end, s.blocks, a, true);
    }
  }

  lemma FreeForwardIndex(base: nat, end: nat, s: Store, a: nat)
    requires StoreInv(base, end, s) && a in s.blocks && !s.blocks[a].isFree
    ensures var t := FreeForward(s, a);
            && IndexBut(t.blocks, t.free, a)
            && Live(t.blocks) == Live(s.blocks) - {a}
  {
    assert BlockOk(base, end, s.blocks, a);
    hide Tiling, BlockOk;
  }

  /** No two free neighbours, except possibly in front of `a`. */
  ghost predicate CoalescedBut(blocks: Blocks, a: nat) {
    forall x {:trigger Separated(blocks, x)} :: x in blocks && x + blocks[x].size != a ==> Separated(blocks, x)
  }

  lemma FreeForwardCoalesced(base: nat, end: nat, s: Store, a: nat)
    requires StoreInv(base, end, s) && a in s.blocks && !s.blocks[a].isFree && Coalesced(s.blocks)
    ensures CoalescedBut(FreeForward(s, a).blocks, a)
  {
    var b' := FreeForward(s, a).blocks;
    var n := a + s.blocks[a].size;
    assert BlockOk(base, end, s.blocks, a);
    assert n in s.blocks ==> Separated(s.blocks, n);
    forall x | x in b' && x + b'[x].size != a ensures Separated(b', x) {
      assert Separated(s.blocks, x) && BlockOk(base, end, s.blocks, x);
    }
  }

  lemma FreeBackwardInv(base: nat, end: nat, s: Store, a: nat, prev: Option<nat>)
    requires Tiling(base, end, s.blocks) && IndexBut(s.blocks, s.free, a)
    requires a in s.blocks && s.blocks[a].isFree
    requires prev.Some? ==> prev.value in s.blocks && prev.value + s.blocks[prev.value].size == a
    ensures StoreInv(base, end, FreeBackward(s, a, prev))
    ensures Live(FreeBackward(s, a, prev).blocks) == Live(s.blocks)
  {
    if prev.Some? && s.blocks[prev.value].isFree {
      TilingMerge(base, end, s.blocks, prev.value);
      assert BlockOk(base, end, s.blocks, prev.value) && BlockOk(base, end, s.blocks, a);
    }
    hide Tiling, BlockOk;
  }

  lemma FreeBackwardCoalesced(base: nat, end: nat, s: Store, a: nat, prev: Option<nat>)
    requires Tiling(base, end, s.blocks) && CoalescedBut(s.blocks, a)
    requires a in s.blocks && s.blocks[a].isFree
    requires prev.Some? ==> prev.value in s.blocks && prev.value + s.blocks[prev.value].size == a
    requires prev.None? ==> forall x :: x in s.blocks ==> a <= x
    ensures Coalesced(FreeBackward(s, a, prev).blocks)
  {
    var b' := FreeBackward(s, a, prev).blocks;
    assert BlockOk(base, end, s.blocks, a);
    assert Separated(s.blocks, a);
    forall x | x in b' ensures Separated(b', x) {
      assert BlockOk(base, end, s.blocks, x);
      assert x + s.blocks[x].size != a ==> Separated(s.blocks, x);
      if prev.Some? {
        assert BlockOk(base, end, s.blocks, prev.value);
        assert Apart(s.blocks, x, prev.value) && Apart(s.blocks, prev.value, x);
      }
    }
  }

  /** Giving block `a` a new size in place, after swallowing its free successor if `merge`. */
  function Resize(s: Store, a: nat, merge: bool, size: nat): Store
    requires a in s.blocks
    requires merge ==> a + s.blocks[a].size in s.blocks
    requires size <= Room(s, a, merge)
  {
    var n := a + s.blocks[a].size;
    var total := Room(s, a, merge);
    var b1 := if merge then Merge(s.blocks, a, true) else s.blocks;
    var f1 := if merge then s.free - {Key(s.blocks[n].size, n)} else s.free;
    if total > size then
      Store(Split(b1, a, size)[a := Block(s.blocks[a].isFree, size)], f1 + {Key(total - size, a + size)})
    else
      Store(b1[a := Block(s.blocks[a].isFree, size)], f1)
  }

  function Room(s: Store, a: nat, merge: bool): nat
    requires a in s.blocks
    requires merge ==> a + s.blocks[a].size in s.blocks
  {
    s.blocks[a].size + if merge then s.blocks[a + s.blocks[a].size].size else 0
  }

  /** Block `a` has room for `need` bytes, with its free successor if it has one. */
  predicate HasRoom(s: Store, a: nat, need: nat) {
    && a in s.blocks
    && (|| need <= s.blocks[a].size
        || (var n := a + s.blocks[a].size;
            n != a && n in s.blocks && s.blocks[n].isFree && need <= s.blocks[a].size + s.blocks[n].size))
  }

  /** The store after block `a` has been given `need` bytes where it is. */
  function InPlace(s: Store, a: nat, need: nat): Store
    requires HasRoom(s, a, need)
  {
    Resize(s, a, s.blocks[a].size < need, need)
  }

  /** Resizing as it is done: merge first, then split off what is not needed. */
  lemma ResizeSteps(s: Store, a: nat, merge: bool, size: nat)
    requires a in s.blocks && (merge ==> s.blocks[a].size > 0 && a + s.blocks[a].size in s.blocks)
    requires 0 < size <= Room(s, a, merge)
    ensures var b1 := if merge then Merge(s.blocks, a, s.blocks[a].isFree) else s.blocks;
            var n := a + s.blocks[a].size;
            var f1 := if merge then s.free - {Key(s.blocks[n].size, n)} else s.free;
            && a in b1 && b1[a] == Block(s.blocks[a].isFree, Room(s, a, merge))
            && Resize(s, a, merge, size) ==
               if b1[a].size > size then Store(Split(b1, a, size), f1 + {Key(b1[a].size - size, a + size)})
               else Store(b1, f1)
  {
  }

  ghost predicate CanResize(s: Store, a: nat, merge: bool, size: nat) {
    && a in s.blocks && !s.blocks[a].isFree
    && (merge ==> a + s.blocks[a].size in s.blocks && s.blocks[a + s.blocks[a].size].isFree)
    && 0 < size <= Room(s, a, merge)
    && size % ALIGNMENT == 0
  }

  lemma ResizeTiling(base: nat, end: nat, s: Store, a: nat, merge: bool, size: nat)
    requires Tiling(base, end, s.blocks) && CanResize(s, a, merge, size)
    ensures Tiling(base, end, Resize(s, a, merge, size).blocks)
    ensures size < Room(s, a, merge) ==> a + size !in s.blocks || (merge && a + size == a + s.blocks[a].size)
  {
    hide Tiling;
    var b1 := if merge then Merge(s.blocks, a, true) else s.blocks;
    if merge {
      TilingMerge(base, end, s.blocks, a);
    }
    if Room(s, a, merge) > size {
      TilingSplit(base, end, b1, a, size);
      TilingSetFree(base, end, Split(b1, a, size), a, false);
    } else {
      TilingSetFree(base, end, b1, a, false);
    }
  }

  lemma ResizeInv(base: nat, end: nat, s: Store, a: nat, merge: bool, size: nat)
    requires StoreInv(base, end, s) && CanResize(s, a, merge, size)
    ensures StoreInv(base, end, Resize(s, a, merge, size))
    ensures Live(Resize(s, a, merge, size).blocks) == Live(s.blocks)[a := size]
  {
    ResizeTiling(base, end, s, a, merge, size);
    assert BlockOk(base, end, s.blocks, a);
    hide Tiling, BlockOk;
  }

  lemma GrowthStaysCoalesced(base: nat, end: nat, s: Store, a: nat, merge: bool, size: nat)
    requires StoreInv(base, end, s) && CanResize(s, a, merge, size)
    requires Coalesced(s.blocks) && s.blocks[a].size <= size
    ensures Coalesced(Resize(s, a, merge, size).blocks)
  {
    var b' := Resize(s, a, merge, size).blocks;
    assert BlockOk(base, end, s.blocks, a);
    if merge {
      var n := a + s.blocks[a].size;
      assert Separated(s.blocks, n) && BlockOk(base, end, s.blocks, n);
      forall x | x in b' ensures Separated(b', x) {
        if x in s.blocks && x != n {
          assert Separated(s.blocks, x);
          assert BlockOk(base, end, s.blocks, x) && Apart(s.blocks, x, a) && Apart(s.blocks, a, x);
          assert Apart(s.blocks, n, x);
        } else {
          assert x + b'[x].size == n + s.blocks[n].size;
        }
      }
    } else {
      assert b' == s.blocks;
    }
  }

  /** Shrinking splits without looking ahead, so coalescing survives exactly when the next block is not free. */
  lemma ShrinkingCoalesces(base: nat, end: nat, s: Store, a: nat, size: nat)
    requires StoreInv(base, end, s) && CanResize(s, a, false, size)
    requires Coalesced(s.blocks) && size < s.blocks[a].size
    ensures var n := a + s.blocks[a].size;
            Coalesced(Resize(s, a, false, size).blocks) <==> !(n in s.blocks && s.blocks[n].isFree)
  {
    var n := a + s.blocks[a].size;
    var b' := Resize(s, a, false, size).blocks;
    assert BlockOk(base, end, s.blocks, a);
    SplitPointIsNew(base, end, s.blocks, a, size);
    assert Separated(b', a + size) <==> !(n in s.blocks && s.blocks[n].isFree);
    forall x | x in b' && x != a + size ensures Separated(b', x) {
      assert Separated(s.blocks, x);
      assert BlockOk(base, end, s.blocks, x) && Apart(s.blocks, x, a) && Apart(s.blocks, a, x);
    }
  }

  /** What resizing in place does to the live blocks. */
  lemma Resized(base: nat, end: nat, s: Store, a: nat, need: nat)
    requires StoreInv(base, end, s) && HasRoom(s, a, need) && need > 0 && need % ALIGNMENT == 0
    ensures var t := InPlace(s, a, need);
            if s.blocks[a].isFree then a !in Live(t.blocks)
            else
              && StoreInv(base, end, t) && Live(t.blocks) == Live(s.blocks)[a := need]
              && (Coalesced(s.blocks) && s.blocks[a].size <= need ==> Coalesced(t.blocks))
  {
    var merge := s.blocks[a].size < need;
    if s.blocks[a].isFree {
      assert InPlace(s, a, need).blocks[a].isFree;
    } else {
      hide Resize;
      ResizeInv(base, end, s, a, merge, need);
      if Coalesced(s.blocks) && s.blocks[a].size <= need {
        GrowthStaysCoalesced(base, end, s, a, merge, need);
      }
    }
  }

  // Consequences of the invariant -------------------------------------------------------------

  /** Once nothing is live, the free blocks have grown together into the whole region. */
  lemma AllFreeIsOneBlock(base: nat, end: nat, s: Store)
    requires StoreInv(base, end, s) && Coalesced(s.blocks) && Live(s.blocks) == map[]
    ensures base <= end && s.blocks == map[base := Block(true, end - base)]
  {
    assert BlockOk(base, end, s.blocks, base);
    assert base !in Live(s.blocks);
    var n := base + s.blocks[base].size;
    assert n in s.blocks ==> n !in Live(s.blocks);
    assert Separated(s.blocks, base);
    forall x | x in s.blocks ensures x == base {
      assert BlockOk(base, end, s.blocks, x) && Apart(s.blocks, base, x);
    }
  }

  /** Every address of the region lies in a block. */
  lemma {:induction false} BlockAround(base: nat, end: nat, blocks: Blocks, p: nat, from: nat) returns (a: nat)
    requires Tiling(base, end, blocks) && from in blocks && from <= p < end
    ensures a in blocks && a <= p < a + blocks[a].size
    decreases end - from
  {
    assert BlockOk(base, end, blocks, from);
    if p < from + blocks[from].size {
      a := from;
    } else {
      a := BlockAround(base, end, blocks, p, from + blocks[from].size);
    }
  }

  /** And in only one. */
  lemma BlocksAreDisjoint(base: nat, end: nat, blocks: Blocks, a: nat, b: nat, p: nat)
    requires Tiling(base, end, blocks) && a in blocks && b in blocks
    requires a <= p < a + blocks[a].size && b <= p < b + blocks[b].size
    ensures a == b
  {
    assert Apart(blocks, a, b) && Apart(blocks, b, a);
  }

  lemma BlockSizes(base: nat, end: nat, blocks: Blocks, a: nat)
    requires Tiling(base, end, blocks) && a in blocks
    ensures base <= a && (0 < blocks[a].size || base == end) && a + blocks[a].size <= end
    ensures !blocks[a].isFree ==> 0 < blocks[a].size && blocks[a].size % ALIGNMENT == 0
  {
    assert BlockOk(base, end, blocks, a);
  }

  lemma BlockRanges(base: nat, end: nat, blocks: Blocks, a: nat, b: nat)
    requires Tiling(base, end, blocks) && a in blocks && b in blocks && a != b
    ensures base <= a && a + blocks[a].size <= end
    ensures base <= b && b + blocks[b].size <= end
    ensures a + blocks[a].size <= b || b + blocks[b].size <= a
  {
    assert BlockOk(base, end, blocks, a) && BlockOk(base, end, blocks, b);
    assert Apart(blocks, a, b) && Apart(blocks, b, a);
  }

  // Ordered searches ------------------------------------------------------------------------------

  /** std::next: the least key above `a`. */
  method NextKey(blocks: Blocks, a: nat) returns (m: Option<nat>)
    ensures m.None? ==> forall x :: x in blocks ==> x <= a
    ensures m.Some? ==> m.value in blocks && a < m.value && forall x :: x in blocks && a < x ==> m.value <= x
  {
    var rest := blocks.Keys;
    m := None;
    while rest != {}
      invariant rest <= blocks.Keys
      invariant m.Some? ==> m.value in blocks && a < m.value
      invariant m.Some? ==> forall x :: x in blocks && x !in rest && a < x ==> m.value <= x
      invariant m.None? ==> forall x :: x in blocks && x !in rest ==> x <= a
      decreases |rest|
    {
      var x :| x in rest;
      if a < x && (m.None? || x < m.value) {
        m := Some(x);
      }
      rest := rest - {x};
    }
  }

  /** std::prev: the greatest key at most `a`, or below it if `strictly`. */
  method PreviousKey(blocks: Blocks, a: nat, strictly: bool) returns (m: Option<nat>)
    ensures m.None? ==> forall x :: x in blocks ==> a <= x && (!strictly ==> a < x)
    ensures m.Some? ==> m.value in blocks && m.value <= a && (strictly ==> m.value < a)
    ensures m.Some? ==> forall x :: x in blocks && (x < a || (x == a && !strictly)) ==> x <= m.value
  {
    var rest := blocks.Keys;
    m := None;
    while rest != {}
      invariant rest <= blocks.Keys
      invariant m.Some? ==> m.value in blocks && m.value <= a && (strictly ==> m.value < a)
      invariant m.Some? ==> forall x :: x in blocks && x !in rest && (x < a || (x == a && !strictly)) ==> x <= m.value
      invariant m.None? ==> forall x :: x in blocks && x !in rest ==> a <= x && (!strictly ==> a < x)
      decreases |rest|
    {
      var x :| x in rest;
      if (x < a || (x == a && !strictly)) && (m.None? || x > m.value) {
        m := Some(x);
      }
      rest := rest - {x};
    }
  }

  /** free_blocks_.lower_bound(size): the smallest key whose size is enough. */
  method LowerBound(free: set<Key>, size: nat) returns (m: Option<Key>)
    ensures m.None? <==> forall k :: k in free ==> k.size < size
    ensures m.Some? ==> m.value in free && m.value.size >= size
    ensures m.Some? ==> forall k :: k in free && k.size >= size ==> m.value.AtMost(k)
  {
    var rest := free;
    m := None;
    while rest != {}
      invariant rest <= free
      invariant m.Some? ==> m.value in free && m.value.size >= size
      invariant m.Some? ==> forall k :: k in free && k !in rest && k.size >= size ==> m.value.AtMost(k)
      invariant m.None? ==> forall k :: k in free && k !in rest ==> k.size < size
      decreases |rest|
    {
      var k :| k in rest;
      if k.size >= size && (m.None? || k.AtMost(m.value)) {
        m := Some(k);
      }
      rest := rest - {k};
    }
  }

  /** Some free block has `need` bytes. */
  ghost predicate HasFreeBlock(blocks: Blocks, need: nat) {
    exists a :: FreeAt(blocks, a) && blocks[a].size >= need
  }

  /** The smallest sufficient free block, the lowest address among equals. */
  ghost predicate BestFit(blocks: Blocks, need: nat, a: nat) {
    && FreeAt(blocks, a) && blocks[a].size >= need
    && (forall b :: FreeAt(blocks, b) && blocks[b].size >= need ==>
          blocks[a].size < blocks[b].size || (blocks[a].size == blocks[b].size && a <= b))
  }

  // The allocator object --------------------------------------------------------------------------

  /** The bytes of the address range [a, a + n) of a region that starts at `base`. */
  function Slice(m: seq<u8>, base: nat, a: nat, n: nat): seq<u8> {
    if base <= a && a + n - base <= |m| then m[a - base..a + n - base] else []
  }

  function Copied(m: seq<u8>, dst: nat, src: nat, n: nat): seq<u8>
    requires dst + n <= |m| && src + n <= |m|
  {
    m[..dst] + m[src..src + n] + m[dst + n..]
  }

  lemma CopiedSlice(m: seq<u8>, dst: nat, src: nat, n: nat, base: nat, a: nat, k: nat)
    requires dst + n <= |m| && src + n <= |m|
    requires base <= a && a + k - base <= |m|
    requires a + k - base <= dst || dst + n <= a - base
    ensures Slice(Copied(m, dst, src, n), base, a, k) == Slice(m, base, a, k)
    ensures Slice(Copied(m, dst, src, n), base, base + dst, n) == Slice(m, base, base + src, n)
  {
    assert |Copied(m, dst, src, n)| == |m|;
  }

  method CopyRange(m: array<u8>, dst: nat, src: nat, n: nat)
    requires dst + n <= m.Length && src + n <= m.Length
    requires dst + n <= src || src + n <= dst
    modifies m
    ensures m[..] == Copied(old(m[..]), dst, src, n)
  {
    for i := 0 to n
      invariant forall j :: dst <= j < dst + i ==> m[j] == old(m[j - dst + src])
      invariant forall j :: 0 <= j < m.Length && !(dst <= j < dst + i) ==> m[j] == old(m[j])
    {
      m[dst + i] := m[src + i];
    }
  }

  class SimpleAllocator {
    const base: nat
    const size: nat
    const mem: array<u8>
    var allBlocks: Blocks
    var freeBlocks: set<Key>

    ghost predicate Valid()
      reads this
    {
      mem.Length == size && Inv(base, base + size, allBlocks, freeBlocks)
    }

    function Snapshot(): Store
      reads this
    {
      Store(allBlocks, freeBlocks)
    }

    constructor (base: nat, size: nat)
      requires base % ALIGNMENT == 0
      ensures Valid() && fresh(mem)
      ensures this.base == base && this.size == size
      ensures allBlocks == map[base := Block(true, size)] && Coalesced(allBlocks)
    {
      this.base, this.size := base, size;
      mem := new u8[size](_ => 0);
      allBlocks := map[base := Block(true, size)];
      freeBlocks := {Key(size, base)};
    }

    method SplitBlock(a: nat, size: nat)
      requires a in allBlocks && 0 < size < allBlocks[a].size
      modifies this
      ensures allBlocks == Split(old(allBlocks), a, size)
      ensures freeBlocks == old(freeBlocks) + {Key(old(allBlocks)[a].size - size, a + size)}
    {
      var nextAddr := a + size;
      var nextSize := allBlocks[a].size - size;
      allBlocks := allBlocks[a := Block(allBlocks[a].isFree, size)];
      allBlocks := allBlocks[nextAddr := Block(true, nextSize)];
      freeBlocks := freeBlocks + {Key(nextSize, nextAddr)};
    }

    method Allocate(request: nat) returns (r: Result<nat>)
      requires Valid()
      modifies this
      ensures Valid()
      ensures AlignSize(request).None? ==> r == Err(InvalidArgument)
      ensures r.Err? ==> Snapshot() == old(Snapshot())
      ensures AlignSize(request).Some? ==>
                var need := AlignSize(request).value;
                && (r.Ok? <==> HasFreeBlock(old(allBlocks), need))
                && (r.Err? ==> r == Err(ResourceExhausted))
                && (r.Ok? ==>
                      var a := r.value;
                      && BestFit(old(allBlocks), need, a)
                      && Snapshot() == Grab(old(Snapshot()), Key(old(allBlocks)[a].size, a), need)
                      && a !in Live(old(allBlocks))
                      && Live(allBlocks) == Live(old(allBlocks))[a := need])
      ensures Coalesced(old(allBlocks)) ==> Coalesced(allBlocks)
    {
      hide Tiling, Coalesced, Live, Grab;
      var aligned := AlignSize(request);
      if aligned.None? {
        return Err(InvalidArgument);
      }
      var need := aligned.value;
      var it := LowerBound(freeBlocks, need);
      IndexSearch(allBlocks, freeBlocks);
      if it.None? {
        return Err(ResourceExhausted);
      }
      var k := it.value;
      GrabInv(base, base + size, Snapshot(), k, need);
      if Coalesced(allBlocks) {
        GrabCoalesced(base, base + size, Snapshot(), k, need);
      }
      TakeBlock(k, need);
      return Ok(k.addr);
    }

    /** Takes a free block out of the index and gives back what is not needed. */
    method TakeBlock(k: Key, need: nat)
      requires k.addr in allBlocks && allBlocks[k.addr] == Block(true, k.size) && 0 < need <= k.size
      modifies this
      ensures Snapshot() == Grab(old(Snapshot()), k, need)
    {
      freeBlocks := freeBlocks - {k};
      allBlocks := allBlocks[k.addr := Block(false, allBlocks[k.addr].size)];
      if allBlocks[k.addr].size > need {
        SplitBlock(k.addr, need);
      }
    }

    method Free(ptr: nat) returns (r: Result<()>)
      requires Valid()
      modifies this
      ensures Valid()
      ensures r.Ok? <==> ptr in Live(old(allBlocks))
      ensures r.Err? ==> r == Err(InvalidArgument) && Snapshot() == old(Snapshot())
      ensures r.Ok? ==> Live(allBlocks) == Live(old(allBlocks)) - {ptr}
      ensures Coalesced(old(allBlocks)) ==> Coalesced(allBlocks)
    {
      if ptr !in allBlocks || allBlocks[ptr].isFree {
        return Err(InvalidArgument);
      }
      ghost var s0 := Snapshot();
      FreeForwardTiling(base, base + size, s0, ptr);
      FreeForwardIndex(base, base + size, s0, ptr);
      if Coalesced(allBlocks) {
        FreeForwardCoalesced(base, base + size, s0, ptr);
      }
      ReleaseForward(ptr);
      ghost var s1 := Snapshot();
      var prev := PreviousKey(allBlocks, ptr, true);
      if prev.Some? {
        PreviousBlock(base, base + size, allBlocks, ptr, prev.value);
      }
      FreeBackwardInv(base, base + size, s1, ptr, prev);
      if CoalescedBut(allBlocks, ptr) {
        FreeBackwardCoalesced(base, base + size, s1, ptr, prev);
      }
      ReleaseBackward(ptr, prev);
      return Ok(());
    }

    /** First half of Free: mark the block free and merge it with a free successor. */
    method ReleaseForward(ptr: nat)
      requires Valid() && ptr in allBlocks && !allBlocks[ptr].isFree
      modifies this
      ensures Snapshot() == FreeForward(old(Snapshot()), ptr)
    {
      var next := NextKey(allBlocks, ptr);
      assert BlockOk(base, base + size, allBlocks, ptr);
      if next.Some? {
        NextBlock(base, base + size, allBlocks, ptr, next.value);
      }
      allBlocks := allBlocks[ptr := Block(true, allBlocks[ptr].size)];
      if next.Some? && allBlocks[next.value].isFree {
        var n := next.value;
        allBlocks := allBlocks[ptr := Block(true, allBlocks[ptr].size + allBlocks[n].size)];
        freeBlocks := freeBlocks - {Key(allBlocks[n].size, n)};
        allBlocks := map x | x in allBlocks && x != n :: allBlocks[x];
      }
    }

    /** Second half of Free: let a free predecessor take the block, or put it in the index. */
    method ReleaseBackward(ptr: nat, prev: Option<nat>)
      requires Tiling(base, base + size, allBlocks) && IndexBut(allBlocks, freeBlocks, ptr)
      requires ptr in allBlocks && allBlocks[ptr].isFree
      requires prev.Some? ==>
                 prev.value in allBlocks && prev.value < ptr && prev.value + allBlocks[prev.value].size == ptr
      modifies this
      ensures Snapshot() == FreeBackward(old(Snapshot()), ptr, prev)
    {
      if prev.Some? && allBlocks[prev.value].isFree {
        var p := prev.value;
        // the CHECK that exactly one index entry is erased
        assert Key(allBlocks[p].size, p) in freeBlocks;
        freeBlocks := freeBlocks - {Key(allBlocks[p].size, p)};
        allBlocks := allBlocks[p := Block(true, allBlocks[p].size + allBlocks[ptr].size)];
        freeBlocks := freeBlocks + {Key(allBlocks[p].size, p)};
        allBlocks := map x | x in allBlocks && x != ptr :: allBlocks[x];
      } else {
        freeBlocks := freeBlocks + {Key(allBlocks[ptr].size, ptr)};
      }
    }

    /** The bytes at an address range of the region. */
    ghost function Bytes(a: nat, n: nat): seq<u8>
      reads mem
    {
      Slice(mem[..], base, a, n)
    }

    /** The locked part of Reallocate: try to resize in place, with the free successor if there is one. */
    method ResizeInPlace(a: nat, need: nat) returns (ok: bool)
      requires Valid() && a in allBlocks
      requires need > 0 && need % ALIGNMENT == 0
      modifies this
      ensures ok <==> HasRoom(old(Snapshot()), a, need)
      ensures !ok ==> Snapshot() == old(Snapshot()) && old(allBlocks)[a].size < need
      ensures ok ==> Snapshot() == InPlace(old(Snapshot()), a, need)
      ensures old(allBlocks)[a].isFree && ok ==> a !in Live(allBlocks)
      ensures !old(allBlocks)[a].isFree ==>
                && Valid()
                && (ok ==> Live(allBlocks) == Live(old(allBlocks))[a := need])
                && (Coalesced(old(allBlocks)) && old(allBlocks)[a].size <= need ==> Coalesced(allBlocks))
    {
      hide Tiling, Index, Coalesced, Live, Resize, Split, Merge;
      ghost var s := Snapshot();
      ok := true;
      BlockSizes(base, base + size, allBlocks, a);
      if allBlocks[a].size < need {
        var next := NextKey(allBlocks, a);
        NextFound(base, base + size, allBlocks, a, next);
        if next.Some? && allBlocks[next.value].isFree && allBlocks[a].size + allBlocks[next.value].size >= need {
          SwallowNext(a, next.value);
        } else {
          return false;
        }
      }
      ResizeSteps(s, a, s.blocks[a].size < need, need);
      if allBlocks[a].size > need {
        SplitBlock(a, need);
      }
      Resized(base, base + size, s, a, need);
    }

    /** The free block behind `a` becomes part of it. */
    method SwallowNext(a: nat, n: nat)
      requires a in allBlocks && n == a + allBlocks[a].size && n != a && n in allBlocks
      modifies this
      ensures allBlocks == Merge(old(allBlocks), a, old(allBlocks)[a].isFree)
      ensures freeBlocks == old(freeBlocks) - {Key(old(allBlocks)[n].size, n)}
    {
      allBlocks := allBlocks[a := Block(allBlocks[a].isFree, allBlocks[a].size + allBlocks[n].size)];
      freeBlocks := freeBlocks - {Key(allBlocks[n].size, n)};
      allBlocks := map x | x in allBlocks && x != n :: allBlocks[x];
    }

    /**
     * The lookup does not ask whether the block is free, so a freed address is answered too:
     * with a block that is not live, or with an error after another block has been taken.
     */
    method Reallocate(oldAddr: nat, request: nat) returns (r: Result<nat>)
      requires Valid()
      modifies this, mem
      ensures !FreeAt(old(allBlocks), oldAddr) ==> Valid()
      ensures AlignSize(request).None? || oldAddr !in old(allBlocks) ==> r == Err(InvalidArgument)
      // a known block stays where it is exactly if there is room, and otherwise needs a free block elsewhere
      ensures oldAddr in old(allBlocks) && AlignSize(request).Some? ==>
                var need := AlignSize(request).value;
                && (r == Ok(oldAddr) <==> HasRoom(old(Snapshot()), oldAddr, need))
                && (r == Err(ResourceExhausted) <==>
                      !HasRoom(old(Snapshot()), oldAddr, need) && !HasFreeBlock(old(allBlocks), need))
                && (oldAddr in Live(old(allBlocks)) ==> (r.Err? <==> r == Err(ResourceExhausted)))
                && (r.Ok? && r.value != oldAddr ==> BestFit(old(allBlocks), need, r.value))
      ensures FreeAt(old(allBlocks), oldAddr) && r.Ok? ==>
                && r.value == oldAddr && HasRoom(old(Snapshot()), oldAddr, AlignSize(request).value)
                && Snapshot() == InPlace(old(Snapshot()), oldAddr, AlignSize(request).value)
                && mem[..] == old(mem[..])
      ensures r.Ok? ==> (r.value in Live(allBlocks) <==> oldAddr in Live(old(allBlocks)))
      ensures r == Err(InvalidArgument) && AlignSize(request).Some? && oldAddr in old(allBlocks) ==>
                && FreeAt(old(allBlocks), oldAddr)
                && exists a: nat :: a !in Live(old(allBlocks)) &&
                               Live(allBlocks) == Live(old(allBlocks))[a := AlignSize(request).value]
      ensures r.Err? && !FreeAt(old(allBlocks), oldAddr) ==> Snapshot() == old(Snapshot()) && mem[..] == old(mem[..])
      ensures r == Err(ResourceExhausted) ==>
                && Snapshot() == old(Snapshot())
                && oldAddr in old(allBlocks)
                && (!FreeAt(old(allBlocks), oldAddr) ==> request > old(allBlocks)[oldAddr].size)
      ensures
        oldAddr in old(allBlocks) && AlignSize(request).Some? ==>
          AlignSize(request).value <= old(allBlocks)[oldAddr].size ==> r == Ok(oldAddr)
      ensures r.Ok? && oldAddr in Live(old(allBlocks)) ==>
                var need, oldSize := AlignSize(request).value, old(allBlocks)[oldAddr].size;
                && Live(allBlocks) == (Live(old(allBlocks)) - {oldAddr})[r.value := need]
                && r.value !in Live(old(allBlocks)) - {oldAddr}
                && Bytes(r.value, Min(oldSize, need))
                   == old(Bytes(oldAddr, Min(allBlocks[oldAddr].size, AlignSize(request).value)))
                && (forall b :: b in Live(old(allBlocks)) && b != oldAddr ==>
                      Bytes(b, Live(old(allBlocks))[b]) == old(Bytes(b, Live(allBlocks)[b])))
                && (Coalesced(old(allBlocks)) && oldSize <= need ==> Coalesced(allBlocks))
    {
      hide Tiling, Index, Slice, Coalesced;
      var aligned := AlignSize(request);
      if aligned.None? {
        return Err(InvalidArgument);
      }
      var need := aligned.value;
      if oldAddr !in allBlocks {
        return Err(InvalidArgument);
      }
      ghost var live0 := Live(allBlocks);
      BlockSizes(base, base + size, allBlocks, oldAddr);
      AlignSizeAgain(need);
      var inPlace := ResizeInPlace(oldAddr, need);
      if inPlace {
        assert (live0 - {oldAddr})[oldAddr := need] == live0[oldAddr := need];
        return Ok(oldAddr);
      }
      r := MoveBlock(oldAddr, need);
      assert r.Err? ==> r.status == InvalidArgument || r.status == ResourceExhausted;
    }

    /** The rest of Reallocate: allocate elsewhere, copy, free. */
    method MoveBlock(oldAddr: nat, need: nat) returns (r: Result<nat>)
      requires Valid() && oldAddr in allBlocks
      requires AlignSize(need) == Some(need) && allBlocks[oldAddr].size < need
      modifies this, mem
      ensures Valid()
      ensures r == Err(ResourceExhausted) <==> !HasFreeBlock(old(allBlocks), need)
      ensures r == Err(ResourceExhausted) ==> Snapshot() == old(Snapshot()) && mem[..] == old(mem[..])
      ensures r.Ok? ==> r.value != oldAddr && BestFit(old(allBlocks), need, r.value)
      ensures r.Err? && r != Err(ResourceExhausted) ==> r == Err(InvalidArgument)
      ensures FreeAt(old(allBlocks), oldAddr) ==> r.Err?
      ensures r == Err(InvalidArgument) ==>
                && FreeAt(old(allBlocks), oldAddr)
                && exists a: nat :: a !in Live(old(allBlocks)) && Live(allBlocks) == Live(old(allBlocks))[a := need]
      ensures r.Ok? ==>
                && Live(allBlocks) == (Live(old(allBlocks)) - {oldAddr})[r.value := need]
                && r.value !in Live(old(allBlocks))
                && Bytes(r.value, old(allBlocks)[oldAddr].size) == old(Bytes(oldAddr, allBlocks[oldAddr].size))
                && (forall b :: b in Live(old(allBlocks)) && b != oldAddr ==>
                      Bytes(b, Live(old(allBlocks))[b]) == old(Bytes(b, Live(allBlocks)[b])))
                && (Coalesced(old(allBlocks)) ==> Coalesced(allBlocks))
    {
      hide Tiling, Index, Slice, Coalesced;
      var oldSize := allBlocks[oldAddr].size;
      ghost var s0 := Snapshot();
      ghost var live0 := Live(allBlocks);
      r := Allocate(need);
      if r.Err? {
        return;
      }
      var newAddr := r.value;
      GrabKeeps(base, base + size, s0, Key(s0.blocks[newAddr].size, newAddr), need, oldAddr);
      CopyBlock(newAddr, oldAddr, Min(oldSize, need));
      assert forall b :: b in live0 && b != oldAddr ==> b in Live(allBlocks) && b != newAddr;
      var freed := Free(oldAddr);
      if freed.Err? {
        return Err(freed.status);
      }
      assert live0[newAddr := need] - {oldAddr} == (live0 - {oldAddr})[newAddr := need];
    }

    /** memcpy between two different blocks. */
    method CopyBlock(dst: nat, src: nat, n: nat)
      requires Valid()
      requires dst in allBlocks && src in allBlocks && dst != src
      requires n <= allBlocks[dst].size && n <= allBlocks[src].size
      modifies mem
      ensures Bytes(dst, n) == old(Bytes(src, n))
      ensures forall b :: b in Live(allBlocks) && b != dst ==>
                Bytes(b, Live(allBlocks)[b]) == old(Bytes(b, Live(allBlocks)[b]))
    {
      hide Tiling, Index, Slice, Copied;
      BlockRanges(base, base + size, allBlocks, dst, src);
      ghost var before := mem[..];
      CopyRange(mem, dst - base, src - base, n);
      CopiedSlice(before, dst - base, src - base, n, base, src, n);
      forall b | b in Live(allBlocks) && b != dst
        ensures Bytes(b, Live(allBlocks)[b]) == old(Bytes(b, Live(allBlocks)[b]))
      {
        BlockRanges(base, base + size, allBlocks, dst, b);
        CopiedSlice(before, dst - base, src - base, n, base, b, Live(allBlocks)[b]);
      }
    }

    /** The block that an address lies in, found as the greatest block start at or below it. */
    method GetAllocationMetadata(ptr: nat) returns (r: Result<nat>)
      requires Valid()
      ensures r.Ok? <==> base <= ptr < base + size
      ensures r.Ok? ==> r.value in allBlocks && r.value <= ptr < r.value + allBlocks[r.value].size
      ensures r.Err? ==> r == Err(InvalidArgument)
    {
      var it := PreviousKey(allBlocks, ptr, false);
      if it.None? {
        return Err(InvalidArgument);
      }
      var a := it.value;
      assert BlockOk(base, base + size, allBlocks, a);
      if base <= ptr < base + size {
        ghost var around := BlockAround(base, base + size, allBlocks, ptr, base);
        assert Apart(allBlocks, around, a);
      }
      if ptr < a || ptr >= a + allBlocks[a].size {
        return Err(InvalidArgument);
      }
      return Ok(a);
    }
  }

  /** Nothing was ever allocated, and yet Reallocate of the base succeeds, with a block that is not live. */
  method FreedBlockIsReallocated() returns (r: Result<nat>, live: bool)
    ensures r == Ok(0) && !live
  {
    var a := new SimpleAllocator(0, 16);
    r := a.Reallocate(0, 8);
    live := 0 in a.allBlocks && !a.allBlocks[0].isFree;
  }

  lemma AlignSizeAgain(n: nat)
    requires n % ALIGNMENT == 0
    ensures AlignSize(n).Some? ==> AlignSize(n).value == n
  {
  }

  lemma IndexSearch(blocks: Blocks, free: set<Key>)
    requires Index(blocks, free)
    ensures forall a :: a in blocks && blocks[a].isFree ==> Key(blocks[a].size, a) in free
  {
    forall a | a in blocks && blocks[a].isFree ensures Key(blocks[a].size, a) in free {
      assert Key(blocks[a].size, a).addr == a;
    }
  }
}
