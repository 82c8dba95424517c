/** The compute module as the page sees it through its `WasmModule` interface:
    the linear memory `HEAPU8`, `_malloc`, `_free`, and the two exported
    kernels `_grayscale` and `_sepia`. */
module Wasm {
  import opened Effects

  /** One call across the boundary between page and module, in the order made. */
  datatype Call =
    | Allocated(size: nat, ptr: nat)                           // _malloc(size) returned ptr
    | Copied(ptr: nat, len: nat)                               // HEAPU8.set(bytes, ptr)
    | Ran(effect: Effect, ptr: nat, width: int, height: int)   // _grayscale / _sepia
    | Read(ptr: nat, len: nat)                                 // copy of HEAPU8.subarray(ptr, ptr + len)
    | Freed(ptr: nat)                                          // _free(ptr)

  /** The bytes a block of `size` occupies: malloc(0) still hands out a pointer
      of its own, so an empty block takes one byte. */
  function Footprint(size: nat): (n: nat)
    ensures size <= n && 0 < n
  {
    if size == 0 then 1 else size
  }

  /** Blocks [p, p + Footprint(m)) and [q, q + Footprint(n)) do not overlap. */
  predicate Apart(p: nat, m: nat, q: nat, n: nat)
  {
    p + Footprint(m) <= q || q + Footprint(n) <= p
  }

  /** A block of `size` bytes could start at p in a memory of `length` bytes
      holding the blocks `live`: p is not the null pointer, the block lies
      inside the memory and it overlaps no live block. */
  predicate FitsIn(live: map<nat, nat>, length: nat, p: nat, size: nat)
  {
    0 < p && p + Footprint(size) <= length &&
    forall q | q in live :: Apart(p, size, q, live[q])
  }

  /** p is the lowest address where the block fits. */
  predicate FirstFit(live: map<nat, nat>, length: nat, size: nat, p: nat)
  {
    FitsIn(live, length, p, size) && forall q :: 0 < q < p ==> !FitsIn(live, length, q, size)
  }

  /** The block fits nowhere. */
  ghost predicate NoFit(live: map<nat, nat>, length: nat, size: nat)
  {
    forall q :: !FitsIn(live, length, q, size)
  }

  /** The same memory and the same live blocks give the same first fit. */
  lemma FirstFitUnique(live: map<nat, nat>, length: nat, size: nat, p: nat, p': nat)
    requires FirstFit(live, length, size, p) && FirstFit(live, length, size, p')
    ensures p == p'
  {
  }

  /** The three parts of a memory that had `mid` written over it from p on. */
  lemma SpliceParts(now: seq<Byte>, before: seq<Byte>, p: nat, mid: seq<Byte>)
    requires p + |mid| <= |before| && now == before[..p] + mid + before[p + |mid|..]
    ensures |now| == |before|
    ensures now[..p] == before[..p] && now[p..p + |mid|] == mid
    ensures now[p + |mid|..] == before[p + |mid|..]
  {
  }

  class WasmModule {
    /** `HEAPU8`: the module's linear memory. */
    var heap: array<Byte>
    /** The live blocks: start address to the size that was asked for. */
    var live: map<nat, nat>
    /** Every call made across the boundary, oldest first. */
    ghost var calls: seq<Call>

    /** Live blocks are non-null, inside the memory and pairwise apart. */
    ghost predicate Valid()
      reads this`heap, this`live
    {
      (forall p | p in live :: 0 < p && p + Footprint(live[p]) <= heap.Length) &&
      (forall p, q | p in live && q in live && p != q :: Apart(p, live[p], q, live[q]))
    }

    constructor (memory: nat)
      ensures Valid() && fresh(heap) && heap.Length == memory
      ensures live == map[] && calls == []
    {
      heap := new Byte[memory](_ => 0);
      live := map[];
      calls := [];
    }

    /** `_malloc(size)`. The block goes at the lowest address where it fits
        (the placement policy of the real allocator is not part of this model);
        when it fits nowhere the result is 0, the null pointer, and nothing is
        allocated. */
    method Malloc(size: nat) returns (ptr: nat)
      requires Valid()
      modifies this`live, this`calls
      ensures Valid()
      ensures ptr == 0 <==> NoFit(old(live), heap.Length, size)
      ensures ptr == 0 ==> live == old(live) && calls == old(calls)
      ensures ptr != 0 ==> FirstFit(old(live), heap.Length, size, ptr) && ptr !in old(live)
      ensures ptr != 0 ==> live == old(live)[ptr := size] && calls == old(calls) + [Allocated(size, ptr)]
    {
      ptr := 1;
      while ptr + Footprint(size) <= heap.Length && !FitsIn(live, heap.Length, ptr, size)
        invariant 1 <= ptr
        invariant forall p :: 0 < p < ptr ==> !FitsIn(live, heap.Length, p, size)
        decreases heap.Length - ptr
      {
        ptr := ptr + 1;
      }
      if heap.Length < ptr + Footprint(size) {
        ptr := 0;
        return;
      }
      live := live[ptr := size];
      calls := calls + [Allocated(size, ptr)];
    }

    /** `HEAPU8.set(bytes, ptr)`: the bytes are copied into memory from ptr on;
        nothing else in memory changes. */
    method Set(bytes: seq<Byte>, ptr: nat)
      requires ptr + |bytes| <= heap.Length
      modifies heap, this`calls
      ensures heap[..] == old(heap[..ptr]) + bytes + old(heap[ptr + |bytes|..])
      ensures calls == old(calls) + [Copied(ptr, |bytes|)]
    {
      ghost var before := heap[..];
      forall k | 0 <= k < |bytes| {
        heap[ptr + k] := bytes[k];
      }
      Splice(heap[..], before, ptr, bytes);
      calls := calls + [Copied(ptr, |bytes|)];
    }

    /** `_grayscale(ptr, width, height)` or `_sepia(ptr, width, height)`: the
        kernel rewrites the Span(width, height) bytes from ptr in place. */
    method Run(effect: Effect, ptr: nat, width: int, height: int)
      requires Dimensions(width, height) && ptr + Span(width, height) <= heap.Length
      modifies heap, this`calls
      ensures Rewritten(effect.Color(), old(heap[..]), heap[..], ptr, Span(width, height))
      ensures calls == old(calls) + [Ran(effect, ptr, width, height)]
    {
      match effect {
        case Grayscale => GrayscaleKernel(heap, ptr, width, height);
        case Sepia => SepiaKernel(heap, ptr, width, height);
      }
      calls := calls + [Ran(effect, ptr, width, height)];
    }

    /** `new Uint8ClampedArray(HEAPU8.subarray(ptr, ptr + len))`: a copy of the
        bytes from ptr on. `subarray` cuts both ends at the end of memory instead
        of failing. The copy is a value: later writes to memory, and `_free`, do
        not change it. */
    method Subarray(ptr: nat, len: nat) returns (bytes: seq<Byte>)
      modifies this`calls
      ensures ptr + len <= heap.Length ==> bytes == heap[ptr..ptr + len]
      ensures heap.Length < ptr + len ==> bytes == heap[if ptr < heap.Length then ptr else heap.Length..]
      ensures calls == old(calls) + [Read(ptr, len)]
    {
      var lo := if ptr < heap.Length then ptr else heap.Length;
      var hi := if ptr + len < heap.Length then ptr + len else heap.Length;
      bytes := heap[lo..hi];
      calls := calls + [Read(ptr, len)];
    }

    /** `_free(ptr)` on a live block: the block is released, once. Freeing a
        pointer that is not live (a second free) is outside the contract. */
    method Free(ptr: nat)
      requires Valid() && ptr in live
      modifies this`live, this`calls
      ensures Valid()
      ensures live == old(live) - {ptr}
      ensures calls == old(calls) + [Freed(ptr)]
    {
      live := live - {ptr};
      calls := calls + [Freed(ptr)];
    }
  }
}
