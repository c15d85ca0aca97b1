/**
 * SharedMemoryRPCChannel: allocations live either in the shared region, managed by
 * SimpleAllocator, or in the sandboxee's own heap, reached through the inner channel.
 * Whatever the inner channel answers is a parameter of the operation.
 */
module SharedChannel {
  import opened Words
  import opened Allocator

  /** What the inner channel answered to an allocation: an address and what the memory there holds. */
  datatype Answer = Granted(addr: nat, bytes: seq<u8>) | Refused

  function Prefix(s: seq<u8>, n: nat): seq<u8> {
    if n <= |s| then s[..n] else s
  }

  // Writing into an allocation --------------------------------------------------------

  predicate Covers(start: nat, bytes: seq<u8>, ptr: nat, n: nat) {
    start <= ptr && ptr + n <= start + |bytes|
  }

  /** The allocation `bytes` at `start` after `data` has been written at address `ptr`. */
  function Written(start: nat, bytes: seq<u8>, ptr: nat, data: seq<u8>): (r: seq<u8>)
    ensures |r| == |bytes|
  {
    if Covers(start, bytes, ptr, |data|) then
      bytes[..ptr - start] + data + bytes[ptr - start + |data|..]
    else bytes
  }

  function Read(start: nat, bytes: seq<u8>, ptr: nat, n: nat): seq<u8>
    requires Covers(start, bytes, ptr, n)
  {
    bytes[ptr - start..ptr - start + n]
  }

  lemma ReadAfterWrite(start: nat, bytes: seq<u8>, ptr: nat, data: seq<u8>)
    requires Covers(start, bytes, ptr, |data|)
    ensures Read(start, Written(start, bytes, ptr, data), ptr, |data|) == data
  {
  }

  lemma WriteElsewhere(start: nat, bytes: seq<u8>, ptr: nat, data: seq<u8>, q: nat, n: nat)
    requires Covers(start, bytes, q, n)
    requires q + n <= ptr || ptr + |data| <= q
    ensures Read(start, Written(start, bytes, ptr, data), q, n) == Read(start, bytes, q, n)
  {
    if Covers(start, bytes, ptr, |data|) {
      var w := Written(start, bytes, ptr, data);
      assert forall i :: 0 <= i < |bytes| && !(ptr - start <= i < ptr - start + |data|) ==> w[i] == bytes[i];
    }
  }

  /** memcpy into the region. */
  method StoreBytes(m: array<u8>, at: nat, data: seq<u8>)
    requires at + |data| <= m.Length
    modifies m
    ensures m[..] == Splice(old(m[..]), at, data)
  {
    for i := 0 to |data|
      invariant forall j :: at <= j < at + i ==> m[j] == data[j - at]
      invariant forall j :: 0 <= j < m.Length && !(at <= j < at + i) ==> m[j] == old(m[j])
    {
      m[at + i] := data[i];
    }
  }

  lemma SpliceAt(m: seq<u8>, at: nat, data: seq<u8>, j: nat)
    requires at + |data| <= |m|
    ensures |Splice(m, at, data)| == |m|
    ensures j < |m| ==> Splice(m, at, data)[j] == if at <= j < at + |data| then data[j - at] else m[j]
  {
  }

  lemma WrittenAt(start: nat, bytes: seq<u8>, ptr: nat, data: seq<u8>, i: nat)
    requires i < |bytes|
    ensures Written(start, bytes, ptr, data)[i] ==
            if Covers(start, bytes, ptr, |data|) && ptr - start <= i < ptr - start + |data|
            then data[i - (ptr - start)] else bytes[i]
  {
  }

  /** A store inside one block is a write to that block and leaves every disjoint block alone. */
  lemma SpliceSlice(m: seq<u8>, base: nat, p: nat, data: seq<u8>, a: nat, k: nat)
    requires base <= p && p + |data| - base <= |m| && base <= a && a + k - base <= |m|
    requires (a <= p && p + |data| <= a + k) || p + |data| <= a || a + k <= p
    ensures Slice(Splice(m, p - base, data), base, a, k) == Written(a, Slice(m, base, a, k), p, data)
  {
    hide Splice, Written;
    SpliceAt(m, p - base, data, 0);
    var m', s := Splice(m, p - base, data), Slice(m, base, a, k);
    var l, r := Slice(m', base, a, k), Written(a, s, p, data);
    forall i | 0 <= i < k ensures l[i] == r[i] {
      SpliceAt(m, p - base, data, a - base + i);
      WrittenAt(a, s, p, data, i);
    }
  }

  lemma WrittenApart(start: nat, bytes: seq<u8>, ptr: nat, data: seq<u8>)
    requires start + |bytes| <= ptr || ptr < start
    ensures Written(start, bytes, ptr, data) == bytes
  {
  }

  lemma WrittenMoves(start: nat, start': nat, bytes: seq<u8>, ptr: nat, ptr': nat, data: seq<u8>)
    requires ptr - start == ptr' - start'
    ensures Written(start, bytes, ptr, data) == Written(start', bytes, ptr', data)
  {
  }

  lemma SlicePrefix(m: seq<u8>, base: nat, a: nat, n: nat, k: nat)
    requires base <= a && a + n - base <= |m| && k <= n
    ensures |Slice(m, base, a, n)| == n
    ensures Prefix(Slice(m, base, a, n), k) == Slice(m, base, a, k)
  {
    assert m[a - base..a - base + n][..k] == m[a - base..a - base + k];
  }

  lemma SliceRead(m: seq<u8>, base: nat, a: nat, k: nat, offset: nat, n: nat)
    requires base <= a && a + k - base <= |m| && offset + n <= k
    ensures Slice(m, base, a, k)[offset..offset + n] == m[a - base + offset..a - base + offset + n]
  {
    var s := m[a - base..a - base + k];
    var l, r := s[offset..offset + n], m[a - base + offset..a - base + offset + n];
    forall i | 0 <= i < n ensures l[i] == r[i] {
      assert l[i] == s[offset + i] == m[a - base + (offset + i)];
    }
  }

  ghost predicate BlockCovers(blocks: Blocks, a: nat, local: nat, n: nat) {
    a in blocks && a <= local < a + blocks[a].size && local + n <= a + blocks[a].size
  }

  /** What is found at `x` after a write at `ptr`. */
  function AfterWrite(x: nat, before: Option<seq<u8>>, ptr: nat, data: seq<u8>): Option<seq<u8>> {
    match before
    case None => None
    case Some(bytes) => Some(Written(x, bytes, ptr, data))
  }

  class SharedMemoryRPCChannel {
    const allocator: SimpleAllocator
    const remoteBase: nat
    /** The allocations of the inner channel. */
    var heap: map<nat, seq<u8>>

    constructor (allocator: SimpleAllocator, remoteBase: nat)
      requires allocator.Valid()
      ensures Valid() && this.allocator == allocator && this.remoteBase == remoteBase && heap == map[]
    {
      this.allocator, this.remoteBase := allocator, remoteBase;
      heap := map[];
    }

    predicate InRemote(r: nat) {
      remoteBase <= r < remoteBase + allocator.size
    }

    predicate InLocal(a: nat) {
      allocator.base <= a < allocator.base + allocator.size
    }

    function ToLocalAddr(r: nat): (a: nat)
      requires InRemote(r)
      ensures InLocal(a) && ToRemoteAddr(a) == r
    {
      allocator.base + (r - remoteBase)
    }

    function ToRemoteAddr(a: nat): (r: nat)
      requires InLocal(a)
      ensures InRemote(r)
    {
      remoteBase + (a - allocator.base)
    }

    ghost predicate Outside(addr: nat, n: nat) {
      addr + n <= remoteBase || remoteBase + allocator.size <= addr
    }

    ghost predicate Valid()
      reads this, allocator
    {
      allocator.Valid() && forall h :: h in heap ==> Outside(h, |heap[h]|) && !InRemote(h)
    }

    /** The allocation that starts at a remote address, wherever it lives. */
    ghost function Lookup(r: nat): Option<seq<u8>>
      reads this, allocator, allocator.mem
    {
      if InRemote(r) then
        var live := Live(allocator.allBlocks);
        if ToLocalAddr(r) in live then Some(allocator.Bytes(ToLocalAddr(r), live[ToLocalAddr(r)])) else None
      else if r in heap then Some(heap[r]) else None
    }

    /** The inner channel hands out `n` bytes outside the region that nobody else holds. */
    ghost predicate Grants(answer: Answer, n: nat)
      reads this
    {
      answer.Granted? ==>
        && |answer.bytes| == n && answer.addr !in heap
        && Outside(answer.addr, n) && !InRemote(answer.addr)
    }

    method Allocate(request: nat, disableSharedMemory: bool, inner: Answer) returns (r: Option<nat>)
      requires Valid() && Grants(inner, request)
      modifies this, allocator
      ensures Valid()
      ensures r.None? ==> inner.Refused? && forall x :: Lookup(x) == old(Lookup(x))
      ensures r.Some? ==>
                && old(Lookup(r.value)) == None
                && Lookup(r.value).Some? && |Lookup(r.value).value| >= request
                && (forall x :: x != r.value ==> Lookup(x) == old(Lookup(x)))
      ensures r.Some? && !InRemote(r.value) ==> inner.Granted? && r.value == inner.addr
      // the region is used whenever it may be and a free block is large enough
      ensures r.Some? && InRemote(r.value) <==>
                && !disableSharedMemory && AlignSize(request).Some?
                && HasFreeBlock(old(allocator.allBlocks), AlignSize(request).value)
    {
      hide Tiling, Index, Slice;
      if !disableSharedMemory {
        var res := allocator.Allocate(request);
        if res.Ok? {
          LiveBytes(res.value);
          return Some(ToRemoteAddr(res.value));
        }
      }
      match inner
      case Refused =>
        return None;
      case Granted(addr, bytes) =>
        heap := heap[addr := bytes];
        return Some(addr);
    }

    /** A live block lies in the region and has as many bytes as its size says. */
    lemma LiveBytes(a: nat)
      requires allocator.Valid() && a in Live(allocator.allBlocks)
      ensures InLocal(a) && a + Live(allocator.allBlocks)[a] <= allocator.base + allocator.size
      ensures |allocator.Bytes(a, Live(allocator.allBlocks)[a])| == Live(allocator.allBlocks)[a]
    {
      BlockSizes(allocator.base, allocator.base + allocator.size, allocator.allBlocks, a);
    }

    method Free(addr: nat, inner: bool) returns (ok: bool)
      requires Valid()
      requires !InRemote(addr) && inner ==> addr in heap
      modifies this, allocator
      ensures Valid()
      ensures InRemote(addr) ==> (ok <==> old(Lookup(addr)).Some?)
      ensures !InRemote(addr) ==> ok == inner
      ensures ok ==> Lookup(addr) == None && forall x :: x != addr ==> Lookup(x) == old(Lookup(x))
      ensures !ok ==> forall x :: Lookup(x) == old(Lookup(x))
    {
      hide Tiling, Index, Slice;
      if !InRemote(addr) {
        if inner {
          heap := heap - {addr};
        }
        return inner;
      }
      var res := allocator.Free(ToLocalAddr(addr));
      return res.Ok?;
    }

    /** A copy that failed and could not be undone leaves its target allocated. */
    predicate Leaked(x: nat, inner: Answer, copied: bool, freed: bool) {
      inner.Granted? && x == inner.addr && !copied && !freed
    }

    /**
     * `copied` and `freed` are the inner channel's answers to the copy and to the clean-up of a failed
     * copy.  The address must not be that of a block already freed.
     */
    method Reallocate(oldAddr: nat, request: nat, inner: Answer, copied: bool, freed: bool) returns (r: Option<nat>)
      requires Valid() && Grants(inner, request)
      requires InRemote(oldAddr) ==> !FreeAt(allocator.allBlocks, ToLocalAddr(oldAddr))
      requires !InRemote(oldAddr) && inner.Granted? ==> oldAddr in heap
      modifies this, allocator, allocator.mem
      ensures Valid()
      ensures r.None? && (!InRemote(oldAddr) || old(Lookup(oldAddr)).None? || AlignSize(request).None?) ==>
                forall x :: Lookup(x) == old(Lookup(x))
      ensures r.None? && InRemote(oldAddr) && old(Lookup(oldAddr)).Some? && AlignSize(request).Some? ==>
                forall x :: Lookup(x) == if Leaked(x, inner, copied, freed) then Some(inner.bytes) else old(Lookup(x))
      ensures r.Some? ==>
                && old(Lookup(oldAddr)).Some?
                && (r.value != oldAddr ==> old(Lookup(r.value)) == None)
                && Lookup(r.value).Some? && |Lookup(r.value).value| >= request
                && Prefix(Lookup(r.value).value, |old(Lookup(oldAddr)).value|)
                   == Prefix(old(Lookup(oldAddr)).value, |Lookup(r.value).value|)
                && (r.value != oldAddr ==> Lookup(oldAddr) == None)
                && (forall x :: x != r.value && x != oldAddr ==> Lookup(x) == old(Lookup(x)))
      // a block leaves the region only to grow
      ensures r.Some? && InRemote(oldAddr) && !InRemote(r.value) ==> request > |old(Lookup(oldAddr)).value|
      ensures InRemote(oldAddr) && old(Lookup(oldAddr)).None? ==> r.None?
      // the region serves the request if it can, and otherwise the inner channel
      ensures !InRemote(oldAddr) ==> (r.Some? <==> inner.Granted?)
      ensures InRemote(oldAddr) && old(Lookup(oldAddr)).Some? ==>
                && (r.Some? && InRemote(r.value) <==> old(RegionServes(oldAddr, request)))
                && (r.Some? <==>
                      AlignSize(request).Some? && (old(RegionServes(oldAddr, request)) || (inner.Granted? && copied)))
                && (r.Some? && !InRemote(r.value) ==> r.value == inner.addr)
    {
      if !InRemote(oldAddr) {
        r := ReallocateInner(oldAddr, request, inner);
        return;
      }
      var res := ReallocateShared(oldAddr, request);
      match res
      case Ok(a) =>
        return Some(a);
      case Err(status) =>
        if status == InvalidArgument {
          return None;
        }
        r := ReallocateInNonSharedMemory(oldAddr, request, inner, copied, freed);
    }

    /** The inner channel's own Reallocate: a new allocation with the old contents as far as they fit. */
    method ReallocateInner(oldAddr: nat, request: nat, inner: Answer) returns (r: Option<nat>)
      requires Valid() && Grants(inner, request)
      requires !InRemote(oldAddr) && (inner.Granted? ==> oldAddr in heap)
      modifies this
      ensures Valid()
      ensures r.None? ==> forall x :: Lookup(x) == old(Lookup(x))
      ensures r.Some? <==> inner.Granted?
      ensures r.Some? ==>
                && oldAddr in old(heap) && r.value != oldAddr && old(Lookup(r.value)) == None
                && Lookup(r.value).Some? && |Lookup(r.value).value| == request
                && Prefix(Lookup(r.value).value, |old(heap)[oldAddr]|) == Prefix(old(heap)[oldAddr], request)
                && Lookup(oldAddr) == None
                && (forall x :: x != r.value && x != oldAddr ==> Lookup(x) == old(Lookup(x)))
    {
      if inner.Refused? {
        return None;
      }
      var kept := Prefix(heap[oldAddr], request);
      heap := (heap - {oldAddr})[inner.addr := kept + inner.bytes[|kept|..]];
      return Some(inner.addr);
    }

    /** The region has room for `request` bytes behind a block of its own, or elsewhere. */
    ghost predicate RegionServes(addr: nat, request: nat)
      requires InRemote(addr)
      reads allocator
    {
      && AlignSize(request).Some?
      && var need := AlignSize(request).value;
         || (ToLocalAddr(addr) in allocator.allBlocks && HasRoom(allocator.Snapshot(), ToLocalAddr(addr), need))
         || HasFreeBlock(allocator.allBlocks, need)
    }

    /** Reallocate inside the region, in remote addresses. */
    method ReallocateShared(oldAddr: nat, request: nat) returns (r: Result<nat>)
      requires Valid() && InRemote(oldAddr) && !FreeAt(allocator.allBlocks, ToLocalAddr(oldAddr))
      modifies allocator, allocator.mem
      ensures Valid() && heap == old(heap)
      ensures r.Err? ==> forall x :: Lookup(x) == old(Lookup(x))
      ensures r == Err(ResourceExhausted) ==>
                old(Lookup(oldAddr)).Some? && |old(Lookup(oldAddr)).value| < request
      ensures old(Lookup(oldAddr)).Some? ==>
                && (r.Ok? <==> old(RegionServes(oldAddr, request)))
                && (r.Err? ==> r == Err(if AlignSize(request).Some? then ResourceExhausted else InvalidArgument))
      ensures r.Ok? ==>
                && InRemote(r.value)
                && old(Lookup(oldAddr)).Some?
                && (r.value != oldAddr ==> old(Lookup(r.value)) == None)
                && Lookup(r.value).Some? && |Lookup(r.value).value| >= request
                && Prefix(Lookup(r.value).value, |old(Lookup(oldAddr)).value|)
                   == Prefix(old(Lookup(oldAddr)).value, |Lookup(r.value).value|)
                && (r.value != oldAddr ==> Lookup(oldAddr) == None)
                && (forall x :: x != r.value && x != oldAddr ==> Lookup(x) == old(Lookup(x)))
    {
      hide Tiling, Index, Coalesced, Slice;
      var local := ToLocalAddr(oldAddr);
      ghost var live0 := Live(allocator.allBlocks);
      ghost var m0 := allocator.mem[..];
      if local in live0 {
        LiveBytes(local);
      }
      var res := allocator.Reallocate(local, request);
      match res
      case Err(status) =>
        return Err(status);
      case Ok(a) =>
        LiveBytes(a);
        ghost var oldSize, need := live0[local], Live(allocator.allBlocks)[a];
        SlicePrefix(m0, allocator.base, local, oldSize, Min(oldSize, need));
        SlicePrefix(allocator.mem[..], allocator.base, a, need, Min(oldSize, need));
        return Ok(ToRemoteAddr(a));
    }

    /** The old block does not fit in the region any more: move it to the inner channel's heap. */
    method ReallocateInNonSharedMemory(oldAddr: nat, request: nat, inner: Answer, copied: bool, freed: bool)
      returns (r: Option<nat>)
      requires Valid() && Grants(inner, request)
      requires InRemote(oldAddr) && Lookup(oldAddr).Some? && |Lookup(oldAddr).value| < request
      modifies this, allocator
      ensures Valid()
      ensures r.Some? <==> inner.Granted? && copied
      ensures r.None? ==>
                forall x :: Lookup(x) == if Leaked(x, inner, copied, freed) then Some(inner.bytes) else old(Lookup(x))
      ensures r.Some? ==>
                && r.value == inner.addr && old(Lookup(r.value)) == None
                && Lookup(r.value).Some? && |Lookup(r.value).value| == request
                && Lookup(r.value).value[..|old(Lookup(oldAddr)).value|] == old(Lookup(oldAddr)).value
                && Lookup(oldAddr) == None
                && (forall x :: x != r.value && x != oldAddr ==> Lookup(x) == old(Lookup(x)))
    {
      hide Tiling, Index;
      var local := ToLocalAddr(oldAddr);
      var meta := allocator.GetAllocationMetadata(local);
      if meta.Err? || inner.Refused? {
        return None;
      }
      BlockSizes(allocator.base, allocator.base + allocator.size, allocator.allBlocks, local);
      BlockOfStart(local, meta.value);
      // the inner Allocate; a failed copy is undone by the inner Free
      if !copied {
        if !freed {
          heap := heap[inner.addr := inner.bytes];
        }
        return None;
      }
      var n := allocator.allBlocks[meta.value].size;
      var oldBytes := allocator.mem[..][meta.value - allocator.base..meta.value - allocator.base + n];
      heap := heap[inner.addr := Splice(inner.bytes, 0, oldBytes)];
      var res := allocator.Free(local);
      return Some(inner.addr);
    }

    lemma BlockOfStart(a: nat, b: nat)
      requires allocator.Valid() && a in allocator.allBlocks && b in allocator.allBlocks
      requires b <= a < b + allocator.allBlocks[b].size
      ensures a == b
    {
      BlockSizes(allocator.base, allocator.base + allocator.size, allocator.allBlocks, a);
      BlockSizes(allocator.base, allocator.base + allocator.size, allocator.allBlocks, b);
      BlocksAreDisjoint(allocator.base, allocator.base + allocator.size, allocator.allBlocks, a, b, a);
    }

    /** Is [local, local + n) inside one block? */
    method EnsureWithinAllocationBounds(local: nat, n: nat) returns (ok: bool)
      requires Valid() && InLocal(local)
      ensures ok <==> InOneBlock(local, n)
    {
      hide Tiling, Index;
      var meta := allocator.GetAllocationMetadata(local);
      if meta.Err? {
        return false;
      }
      ghost var b := meta.value;
      ok := (local - meta.value) + n <= allocator.allBlocks[meta.value].size;
      assert ok ==> BlockCovers(allocator.allBlocks, b, local, n);
      forall a | BlockCovers(allocator.allBlocks, a, local, n) ensures a == b {
        BlocksAreDisjoint(allocator.base, allocator.base + allocator.size, allocator.allBlocks, a, b, local);
      }
    }

    /** The address range lies inside one block of the region, live or free. */
    ghost predicate InOneBlock(local: nat, n: nat)
      reads allocator
    {
      exists a :: BlockCovers(allocator.allBlocks, a, local, n)
    }

    lemma WriteInRegion(m: seq<u8>, a: nat, b: nat, local: nat, data: seq<u8>)
      requires allocator.Valid() && |m| == allocator.size
      requires BlockCovers(allocator.allBlocks, a, local, |data|) && b in allocator.allBlocks
      ensures allocator.base <= local && local + |data| - allocator.base <= |m|
      ensures var n := allocator.allBlocks[b].size;
              Slice(Splice(m, local - allocator.base, data), allocator.base, b, n)
              == Written(b, Slice(m, allocator.base, b, n), local, data)
    {
      hide Tiling, Index, Splice, Slice, Written;
      var base, end := allocator.base, allocator.base + allocator.size;
      BlockSizes(base, end, allocator.allBlocks, a);
      BlockSizes(base, end, allocator.allBlocks, b);
      if a != b {
        BlockRanges(base, end, allocator.allBlocks, a, b);
      }
      SpliceSlice(m, base, local, data, b, allocator.allBlocks[b].size);
    }

    /** `inner` is the inner channel's answer for an address outside the region. */
    method CopyToSandbox(ptr: nat, data: seq<u8>, inner: bool) returns (ok: bool)
      requires Valid()
      modifies this, allocator.mem
      ensures Valid()
      ensures ok == if InRemote(ptr) then InOneBlock(ToLocalAddr(ptr), |data|) else inner
      ensures !ok ==> forall x :: Lookup(x) == old(Lookup(x))
      ensures ok ==> forall x :: Lookup(x) == AfterWrite(x, old(Lookup(x)), ptr, data)
    {
      if !InRemote(ptr) {
        if inner {
          heap := map h | h in heap :: Written(h, heap[h], ptr, data);
          forall x | InRemote(x) && Lookup(x).Some? ensures Written(x, Lookup(x).value, ptr, data) == Lookup(x).value {
            LiveBytes(ToLocalAddr(x));
            WrittenApart(x, Lookup(x).value, ptr, data);
          }
        }
        return inner;
      }
      var local := ToLocalAddr(ptr);
      ok := EnsureWithinAllocationBounds(local, |data|);
      if ok {
        ghost var a :| BlockCovers(allocator.allBlocks, a, local, |data|);
        ghost var m0 := allocator.mem[..];
        BlockSizes(allocator.base, allocator.base + allocator.size, allocator.allBlocks, a);
        StoreBytes(allocator.mem, local - allocator.base, data);
        forall x ensures Lookup(x) == AfterWrite(x, old(Lookup(x)), ptr, data) {
          if InRemote(x) {
            if ToLocalAddr(x) in Live(allocator.allBlocks) {
              WriteInRegion(m0, a, ToLocalAddr(x), local, data);
              var n := allocator.allBlocks[ToLocalAddr(x)].size;
              var bytes := Slice(m0, allocator.base, ToLocalAddr(x), n);
              WrittenMoves(ToLocalAddr(x), x, bytes, local, ptr, data);
            }
          } else if x in heap {
            WrittenApart(x, heap[x], ptr, data);
          }
        }
      }
    }

    lemma ReadInRegion(x: nat, ptr: nat, n: nat)
      requires Valid() && InRemote(ptr) && ptr + n <= remoteBase + allocator.size && Holds(x, ptr, n)
      ensures Read(x, Lookup(x).value, ptr, n)
              == allocator.mem[..][ToLocalAddr(ptr) - allocator.base..ToLocalAddr(ptr) - allocator.base + n]
    {
      hide Slice;
      if InRemote(x) {
        LiveBytes(ToLocalAddr(x));
        SliceRead(allocator.mem[..], allocator.base, ToLocalAddr(x), |Lookup(x).value|, ptr - x, n);
      } else {
        assert n == 0;
      }
    }

    /** `inner` is what the inner channel reads at an address outside the region. */
    method CopyFromSandbox(ptr: nat, n: nat, inner: Option<seq<u8>>) returns (r: Option<seq<u8>>)
      requires Valid()
      requires !InRemote(ptr) && inner.Some? ==>
                 |inner.value| == n && forall h :: h in heap && Covers(h, heap[h], ptr, n) ==>
                   inner.value == Read(h, heap[h], ptr, n)
      ensures InRemote(ptr) ==> (r.Some? <==> InOneBlock(ToLocalAddr(ptr), n))
      ensures r.Some? ==> |r.value| == n && forall x :: Holds(x, ptr, n) ==> r.value == Read(x, Lookup(x).value, ptr, n)
    {
      hide Tiling, Index, Slice;
      if !InRemote(ptr) {
        forall x | Holds(x, ptr, n) && InRemote(x) ensures n == 0 {
          LiveBytes(ToLocalAddr(x));
        }
        return inner;
      }
      var local := ToLocalAddr(ptr);
      var ok := EnsureWithinAllocationBounds(local, n);
      if !ok {
        return None;
      }
      ghost var a :| BlockCovers(allocator.allBlocks, a, local, n);
      BlockSizes(allocator.base, allocator.base + allocator.size, allocator.allBlocks, a);
      var data := allocator.mem[..][local - allocator.base..local - allocator.base + n];
      forall x | Holds(x, ptr, n) ensures data == Read(x, Lookup(x).value, ptr, n) {
        ReadInRegion(x, ptr, n);
      }
      return Some(data);
    }

    /** The allocation that starts at `x` contains the range [ptr, ptr + n). */
    ghost predicate Holds(x: nat, ptr: nat, n: nat)
      reads this, allocator, allocator.mem
    {
      Lookup(x).Some? && Covers(x, Lookup(x).value, ptr, n)
    }
  }

  /** Another allocation does not hold what one allocation of the region holds. */
  lemma OthersUntouched(ch: SharedMemoryRPCChannel, x: nat, y: nat, ptr: nat, data: seq<u8>)
    requires ch.Valid() && ch.InRemote(ptr) && ch.Holds(x, ptr, |data|) && ptr < x + |ch.Lookup(x).value|
    requires y != x && ch.Lookup(y).Some?
    ensures Written(y, ch.Lookup(y).value, ptr, data) == ch.Lookup(y).value
  {
    var a := ch.allocator;
    if ch.InRemote(y) {
      ch.LiveBytes(ch.ToLocalAddr(y));
      if ch.InRemote(x) {
        ch.LiveBytes(ch.ToLocalAddr(x));
        BlockRanges(a.base, a.base + a.size, a.allBlocks, ch.ToLocalAddr(x), ch.ToLocalAddr(y));
      }
    }
    WrittenApart(y, ch.Lookup(y).value, ptr, data);
  }

  /**
   * A write to a live allocation of the region, then a read of the same range: the read returns what was
   * written, the rest of the allocation reads as before, and so does every other allocation.
   */
  method WriteThenRead(ch: SharedMemoryRPCChannel, ghost x: nat, ptr: nat, data: seq<u8>)
    returns (ok: bool, got: Option<seq<u8>>)
    requires ch.Valid() && ch.InRemote(ptr) && ch.Holds(x, ptr, |data|) && ptr < x + |ch.Lookup(x).value|
    modifies ch, ch.allocator.mem
    ensures ch.Valid() && ok && got == Some(data)
    ensures ch.Lookup(x).Some? && |ch.Lookup(x).value| == |old(ch.Lookup(x)).value|
    ensures forall q: nat, n: nat ::
              Covers(x, old(ch.Lookup(x)).value, q, n) && (q + n <= ptr || ptr + |data| <= q) ==>
                Read(x, ch.Lookup(x).value, q, n) == Read(x, old(ch.Lookup(x)).value, q, n)
    ensures forall y :: y != x ==> ch.Lookup(y) == old(ch.Lookup(y))
  {
    hide Tiling, Index, Slice, Live, Written, Read;
    ghost var bytes := ch.Lookup(x).value;
    ghost var others := iset y | y != x && ch.Lookup(y).Some?;
    RangeInOneBlock(ch, x, ptr, |data|);
    forall y | y in others ensures Written(y, ch.Lookup(y).value, ptr, data) == ch.Lookup(y).value {
      OthersUntouched(ch, x, y, ptr, data);
    }
    ok := ch.CopyToSandbox(ptr, data, false);
    ReadAfterWrite(x, bytes, ptr, data);
    forall q: nat, n: nat | Covers(x, bytes, q, n) && (q + n <= ptr || ptr + |data| <= q)
      ensures Read(x, Written(x, bytes, ptr, data), q, n) == Read(x, bytes, q, n)
    {
      WriteElsewhere(x, bytes, ptr, data, q, n);
    }
    assert ch.Holds(x, ptr, |data|);
    RangeInOneBlock(ch, x, ptr, |data|);
    got := ch.CopyFromSandbox(ptr, |data|, None);
    assert ch.Lookup(x) == Some(Written(x, bytes, ptr, data));
    assert got.Some?;
    assert got.value == Read(x, ch.Lookup(x).value, ptr, |data|);
  }

  lemma RangeInOneBlock(ch: SharedMemoryRPCChannel, x: nat, ptr: nat, n: nat)
    requires ch.Valid() && ch.InRemote(ptr) && ch.Holds(x, ptr, n) && ptr < x + |ch.Lookup(x).value|
    ensures ch.InOneBlock(ch.ToLocalAddr(ptr), n)
  {
    if ch.InRemote(x) {
      ch.LiveBytes(ch.ToLocalAddr(x));
      assert BlockCovers(ch.allocator.allBlocks, ch.ToLocalAddr(x), ch.ToLocalAddr(ptr), n);
    }
  }
}
