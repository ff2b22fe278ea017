/**
 * The in-memory snapshot store of module/snapstore_mem.c: a bounded number
 * of equally sized blocks, each allocated on demand and kept on a list
 * until the store is destroyed. Allocator outcomes and the addresses it
 * hands out are inputs.
 */
module SnapstoreMem {
  import opened Kernel

  /** The bookkeeping of struct snapstore_mem; a block is named by its buffer address. */
  datatype MemState = MemState(blocksLimit: nat, blocksAllocated: nat, blocks: seq<nat>)

  /** The invariant snapstore_mem_get_block keeps. */
  ghost predicate Inv(s: MemState)
  {
    |s.blocks| == s.blocksAllocated <= s.blocksLimit
  }

  /** The outcomes of the two allocations one snapstore_mem_get_block call makes. */
  datatype Alloc = Alloc(elementOk: bool, bufferOk: bool, buffer: nat)

  /** snapstore_mem_get_block. */
  function GetBlockSpec(s: MemState, a: Alloc): (MemState, Option<nat>)
  {
    if s.blocksAllocated >= s.blocksLimit then (s, None)
    else if !a.elementOk || !a.bufferOk then (s, None)
    else (s.(blocksAllocated := s.blocksAllocated + 1, blocks := s.blocks + [a.buffer]), Some(a.buffer))
  }

  /** A run of snapstore_mem_get_block calls. */
  function GetBlocks(s: MemState, allocs: seq<Alloc>): (r: (MemState, seq<Option<nat>>))
    ensures |r.1| == |allocs|
    decreases |allocs|
  {
    if allocs == [] then (s, [])
    else
      var (s1, r) := GetBlockSpec(s, allocs[0]);
      var (s2, rs) := GetBlocks(s1, allocs[1..]);
      (s2, [r] + rs)
  }

  /**
   * One get_block call: on success exactly one block is counted and the new
   * buffer is appended at the tail; otherwise nothing changes. The invariant
   * is preserved either way.
   */
  lemma GetBlockKeepsInvariant(s: MemState, a: Alloc)
    requires Inv(s)
    ensures Inv(GetBlockSpec(s, a).0)
    ensures GetBlockSpec(s, a).1.Some? <==> s.blocksAllocated < s.blocksLimit && a.elementOk && a.bufferOk
    ensures GetBlockSpec(s, a).1.None? ==> GetBlockSpec(s, a).0 == s
    ensures GetBlockSpec(s, a).1.Some? ==>
              GetBlockSpec(s, a).0.blocks == s.blocks + [a.buffer]
              && GetBlockSpec(s, a).0.blocksAllocated == s.blocksAllocated + 1
  {
  }

  /** However the allocator behaves, a store never hands out more than blocks_limit blocks. */
  lemma {:induction false} GetBlocksBounded(s: MemState, allocs: seq<Alloc>)
    requires Inv(s)
    ensures Inv(GetBlocks(s, allocs).0)
    ensures GetBlocks(s, allocs).0.blocksLimit == s.blocksLimit
    ensures s.blocks <= GetBlocks(s, allocs).0.blocks
    decreases |allocs|
  {
    if allocs != [] {
      var (s1, r) := GetBlockSpec(s, allocs[0]);
      GetBlocksBounded(s1, allocs[1..]);
    }
  }

  /** With a fresh store and an allocator that never fails, exactly the first blocks_limit calls succeed. */
  lemma {:induction false} FirstLimitCallsSucceed(s: MemState, allocs: seq<Alloc>)
    requires Inv(s)
    requires forall i :: 0 <= i < |allocs| ==> allocs[i].elementOk && allocs[i].bufferOk
    ensures forall i :: 0 <= i < |allocs| ==>
              (GetBlocks(s, allocs).1[i].Some? <==> s.blocksAllocated + i < s.blocksLimit)
    decreases |allocs|
  {
    if allocs != [] {
      var (s1, r) := GetBlockSpec(s, allocs[0]);
      var rest := GetBlocks(s1, allocs[1..]).1;
      FirstLimitCallsSucceed(s1, allocs[1..]);
      assert GetBlocks(s, allocs).1 == [r] + rest;
      forall i | 1 <= i < |allocs|
        ensures GetBlocks(s, allocs).1[i].Some? <==> s.blocksAllocated + i < s.blocksLimit
      {
        assert allocs[1..][i - 1] == allocs[i];
        if s.blocksAllocated < s.blocksLimit {
          assert s1.blocksAllocated == s.blocksAllocated + 1;
        } else {
          assert s1 == s;
          GetBlocksBounded(s1, allocs[1..]);
          NoneOnceFull(s1, allocs[1..], i - 1);
        }
      }
    }
  }

  /** A full store refuses every further request. */
  lemma {:induction false} NoneOnceFull(s: MemState, allocs: seq<Alloc>, i: nat)
    requires Inv(s) && s.blocksAllocated >= s.blocksLimit
    requires i < |allocs|
    ensures GetBlocks(s, allocs).1[i].None?
    decreases |allocs|
  {
    GetBlocksBounded(s, allocs);
    if i > 0 {
      NoneOnceFull(s, allocs[1..], i - 1);
    }
  }

  class SnapstoreMem {
    var blocksLimit: nat
    var blocksAllocated: nat
    var blocks: seq<nat>

    ghost function State(): MemState
      reads this
    {
      MemState(blocksLimit, blocksAllocated, blocks)
    }

    ghost predicate Valid()
      reads this
    {
      Inv(State())
    }

    constructor (availableBlocks: nat)
      ensures Valid() && State() == MemState(availableBlocks, 0, [])
    {
      blocksLimit := availableBlocks;
      blocksAllocated := 0;
      blocks := [];
    }

    /** snapstore_mem_get_block; `a` holds the outcomes of kzalloc and __vmalloc and the buffer address. */
    method GetBlock(a: Alloc) returns (buff: Option<nat>)
      requires Valid()
      modifies this
      ensures Valid()
      ensures (State(), buff) == GetBlockSpec(old(State()), a)
    {
      if blocksAllocated >= blocksLimit {
        return None;
      }
      if !a.elementOk {
        return None;
      }
      if !a.bufferOk {
        return None;
      }
      blocksAllocated := blocksAllocated + 1;
      blocks := blocks + [a.buffer];
      buff := Some(a.buffer);
    }

    /** The list drain of snapstore_mem_destroy; `freed` holds the buffers in the order they were released. */
    method Destroy() returns (freed: seq<nat>)
      modifies this
      ensures blocks == [] && freed == old(blocks)
      ensures blocksLimit == old(blocksLimit) && blocksAllocated == old(blocksAllocated)
    {
      freed := [];
      var more := true;
      while more
        invariant freed + blocks == old(blocks)
        invariant !more ==> blocks == []
        invariant blocksLimit == old(blocksLimit) && blocksAllocated == old(blocksAllocated)
        decreases |blocks| + (if more then 1 else 0)
      {
        if blocks != [] {
          freed := freed + [blocks[0]];
          blocks := blocks[1..];
        } else {
          more := false;
        }
      }
    }
  }

  /** snapstore_mem_create: null when kzalloc fails. */
  method Create(availableBlocks: nat, ok: bool) returns (mem: SnapstoreMem?)
    ensures mem != null <==> ok
    ensures mem != null ==> fresh(mem) && mem.Valid() && mem.State() == MemState(availableBlocks, 0, [])
  {
    if !ok {
      return null;
    }
    mem := new SnapstoreMem(availableBlocks);
  }
}
