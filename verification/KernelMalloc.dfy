/** kmalloc and kfree of cpu/kheap.c once the heap exists: every successful call is a step of the runs that
    HeapTheorems reasons about. */
module KernelMalloc {
  import opened Machine
  import opened HeapMemory
  import opened HeapSpec
  import opened HeapTheorems
  import opened KernelHeap

  ghost function Snapshot(heap: KernelHeap): Image
    reads heap, heap.mem, heap.index
  {
    Image(heap.mem[..], heap.end, heap.Index(), heap.blocks)
  }

  /** kmalloc of an unaligned block. It fails exactly if no hole fits and either the maximal address does not allow
      the extension or the last byte of the new room is not mapped. */
  method Kmalloc(heap: KernelHeap, size: nat) returns (r: Allocation)
    requires heap.Valid() && heap.index.size + 1 < heap.index.data.Length
    requires heap.end + size + OVERHEAD + PAGE <= WORD
    modifies heap`end, heap`backed, heap`present, heap`blocks, heap.mem, heap.index, heap.index.data
    ensures r.Panicked? <==>
      && !Fits(old(heap.blocks), size + OVERHEAD)
      && heap.start + Rounded(heap.variant, old(heap.end) - heap.start + size + OVERHEAD) > heap.max
    ensures r.Faulted? <==>
      && !r.Panicked? && !Fits(old(heap.blocks), size + OVERHEAD) && old(heap.end) <= heap.end
      && (RoomEnd(heap.variant, old(heap.blocks), old(heap.end), heap.end) - 1) / PAGE !in heap.present
    ensures !r.Panicked? && !Fits(old(heap.blocks), size + OVERHEAD) ==>
      heap.Extended(size + OVERHEAD, old(heap.end), old(heap.backed), old(heap.present))
    ensures r.Panicked? ==> heap.Valid() && heap.blocks == old(heap.blocks)
    ensures r.Allocated? && (Fits(old(heap.blocks), size + OVERHEAD) || GrowSafe(heap.variant, old(heap.blocks))) ==>
      && heap.Shaped() && Step(heap.variant, heap.start, old(Snapshot(heap)), Malloc(size, r.p), Snapshot(heap))
      && (heap.Valid() <==> Fits(old(heap.blocks), size + OVERHEAD) || (heap.end - 1) / PAGE in heap.backed)
  {
    ghost var h := Snapshot(heap);
    r := heap.Alloc(size);
    if r.Allocated? && (Fits(h.blocks, size + OVERHEAD) || GrowSafe(heap.variant, h.blocks)) {
      ghost var bs := if Fits(h.blocks, size + OVERHEAD) then h.blocks else Grown(h.blocks, h.end, heap.end);
      assert CutFromHole(bs, heap.blocks, size + OVERHEAD, r.p);
      ghost var k :| 0 <= k < |bs| && AllocatedAt(bs, heap.blocks, k, size + OVERHEAD, r.p);
      assert GrownOrNot(h, Snapshot(heap), bs) && CutAt(bs, k, heap.blocks, size, r.p);
    }
  }

  method Kfree(heap: KernelHeap, p: nat, ghost k: nat) returns (o: Outcome)
    requires heap.Valid() && heap.index.size < heap.index.data.Length && p != 0
    requires k < |heap.blocks| && !heap.blocks[k].hole && p == heap.blocks[k].addr + HEADER
    modifies heap`end, heap`backed, heap`blocks, heap.mem, heap.index, heap.index.data
    ensures FreeSafe(heap.variant, old(heap.blocks), k, heap.start) ==> o == old(heap.Sight(k))
    ensures o.Done? && FreeSafe(heap.variant, old(heap.blocks), k, heap.start) ==>
      heap.Valid() && Step(heap.variant, heap.start, old(Snapshot(heap)), Free(p), Snapshot(heap))
  {
    ghost var h := Snapshot(heap);
    o := heap.Free(p, k);
    assert o.Done? && FreeSafe(heap.variant, h.blocks, k, heap.start) ==>
      FreedAt(heap.variant, heap.start, h, k, p, Snapshot(heap));
  }
}
