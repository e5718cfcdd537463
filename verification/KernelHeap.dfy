/** The kernel heap of cpu/kheap.c: alloc splits holes, free merges them, and an ordered array indexes
    them by size. */
module KernelHeap {
  import opened Machine
  import opened HeapMemory
  import opened HeapTiling
  import opened HeapMerging
  import opened HeapSpec
  import opened HeapIndex
  import opened HeapPages
  import opened HeapAllocating
  import opened HeapFreeing
  import opened OrderedArray

  class KernelHeap {
    const mem: array<byte>
    const index: OrderedArray
    const start: nat
    const max: nat
    const variant: Variant
    var end: nat
    var backed: set<nat>   // the numbers of the pages that have a frame
    var present: set<nat>  // the mapped pages: giving back a frame leaves its page mapped, to frame 0
    ghost var blocks: seq<Block>

    /** The memory covers the heap with room to look one header past its end, and is an object apart from the index. */
    ghost predicate Room()
      reads this, index, index.data
    {
      && FOOTER <= start <= end <= max && start % PAGE == 0
      && max + HEADER <= mem.Length <= WORD
      && index.Valid()
      && (mem as object) != (index.data as object) && (mem as object) != index && (mem as object) != this
      && (index.data as object) != this && (index as object) != this
    }

    ghost function Index(): multiset<nat>
      reads this, index
    {
      multiset(index.Contents())
    }

    /** The index is sorted by the sizes in the headers. */
    ghost predicate InOrder()
      reads this, mem, index
    {
      SortedBySize(mem[..], index.Contents())
    }

    /** Apart from the entry a it is. */
    ghost predicate InOrderBut(a: nat)
      reads this, mem, index
    {
      SortedBut(mem[..], index.Contents(), a)
    }

    /** Every page under the heap, and under the word in front of it that free looks at, has a frame. */
    ghost predicate Backed()
      reads this`end, this`backed, this`present
    {
      FOOTER <= start && backed <= present && Covered(backed, start - FOOTER, end)
    }

    /** The bytes of the heap are in order. */
    ghost predicate Shaped()
      reads this, mem, index, index.data
    {
      && Room()
      && end - start >= HEAP_MIN_SIZE && (variant.Intended? ==> end % PAGE == 0)
      && HeapIs(mem[..], start, end, Index(), blocks)
      && Word(mem[..], start - FOOTER) != MAGIC
    }

    ghost predicate Valid()
      reads this, mem, index, index.data
    {
      Shaped() && Backed()
    }

    /** create_heap: the index array comes first, cleared, and behind it one hole. The hole gets a header
        but no footer. */
    constructor (mem: array<byte>, base: nat, end: nat, max: nat, variant: Variant,
      backed: set<nat>, present: set<nat>)
      requires Covered(backed, base, end) && backed <= present
      requires base % PAGE == 0 && end % PAGE == 0
      requires base + 4 * HEAP_INDEX_SIZE + HEAP_MIN_SIZE <= end <= max && max + HEADER <= mem.Length <= WORD
      modifies mem
      ensures Valid() && this.mem == mem && this.variant == variant && this.end == end && this.max == max
      ensures this.backed == backed && this.present == present
      ensures start == base + 4 * HEAP_INDEX_SIZE && start % PAGE == 0
      ensures blocks == [Block(start, end - start, true)]
      ensures InOrder()
      ensures fresh(index) && fresh(index.data) && index.data.Length == HEAP_INDEX_SIZE
    {
      this.mem, this.start, this.end, this.max, this.variant := mem, base + 4 * HEAP_INDEX_SIZE, end, max, variant;
      var ix := LayOut(mem, base, base + 4 * HEAP_INDEX_SIZE, end);
      index := ix;
      this.backed, this.present := backed, present;
      blocks := [Block(base + 4 * HEAP_INDEX_SIZE, end - (base + 4 * HEAP_INDEX_SIZE), true)];
    }

    /** Every index entry is an address at which a header can be read. */
    ghost predicate Readable()
      reads this, index, index.data
    {
      index.Valid() && forall a :: a in index.Contents() ==> a + HEADER <= mem.Length
    }

    /** find_smallest_hole without alignment: the first entry of the index that is large enough. */
    method FindSmallestHole(n: nat) returns (i: int)
      requires Readable()
      ensures i == -1 || 0 <= i < index.size
      ensures i != -1 ==> SizeAt(mem[..], index.Contents()[i]) >= n
      ensures forall j :: 0 <= j < (if i == -1 then index.size else i) ==> SizeAt(mem[..], index.Contents()[j]) < n
      ensures i == -1 ==> forall a :: a in index.Contents() ==> SizeAt(mem[..], a) < n
    {
      i := 0;
      while i < index.size
        invariant 0 <= i <= index.size
        invariant forall j :: 0 <= j < i ==> SizeAt(mem[..], index.Contents()[j]) < n
      {
        var header := index.Lookup(i);
        assert header in index.Contents();
        var size := Read32(mem, header + 8);
        if size >= n {
          return;
        }
        i := i + 1;
      }
      i := -1;
    }

    /** The second half of alloc: allocates n bytes, header and footer included, from the hole in slot i
        of the index. */
    method Carve(i: nat, n: nat, ghost b: Block) returns (p: nat)
      requires Room() && i < index.size < index.data.Length && index.Contents()[i] == b.addr
      requires b.hole && IsBlock(mem[..], b) && 0 < b.addr && b.End() <= end && OVERHEAD <= n <= b.size
      modifies mem, index, index.data
      ensures Room() && index.size <= old(index.size) && p == b.addr + HEADER
      ensures SameOutside(old(mem[..]), mem[..], b.addr, b.End())
      ensures Tiles(mem[..], b.addr, b.End(), Carved(b, n)) && Footed(mem[..], Carved(b, n))
      ensures index.Contents() == CarvedIndex(old(index.Contents()), i, b, n, BySize(mem[..]))
    {
      hide SameOutside, Tiles, Footed, Inserted, Removed, BySize;
      var pos := index.Lookup(i);
      var holeSize := Read32(mem, pos + 8);
      var newSize := n;
      if holeSize - newSize < OVERHEAD {
        newSize := holeSize;
      }
      index.Remove(i);
      SplitHole(mem, end, Block(pos, holeSize, true), n);
      if newSize < holeSize {
        index.Insert(pos + newSize, BySize(mem[..]));
      }
      p := pos + HEADER;
    }

    /** expand: the heap gets at least newSize bytes, or the kernel stops at one of the two assertions. */
    method Expand(newSize: nat) returns (panicked: bool)
      requires Room() && start + newSize + PAGE <= WORD
      modifies this`end, this`backed, this`present
      ensures panicked <==> newSize <= old(end) - start || start + Rounded(variant, newSize) > max
      ensures panicked ==> end == old(end) && backed == old(backed) && present == old(present)
      ensures !panicked ==> end == start + Rounded(variant, newSize) && Room()
      ensures !panicked ==> RoundsTo(variant, newSize, end - start)
      ensures !panicked ==> backed == old(backed) + Touched(start, old(end) - start, end - start)
      ensures !panicked ==> present == old(present) + Touched(start, old(end) - start, end - start)
      ensures !panicked && old(Backed()) ==>
        && (Backed() <==> (end - 1) / PAGE in backed)
        && (Backed() <==> (end - 1) / PAGE in old(backed) || StepsFit(old(end) - start, end - start))
        && NearlyCovered(present, start - FOOTER, end)
      ensures old(end) % PAGE == 0 && old(Backed()) ==> Backed()
      ensures !panicked && variant.Intended? ==> end % PAGE == 0
    {
      if newSize <= end - start {
        return true;
      }
      var size := newSize;
      if match variant { case AsWritten => newSize % 2 == 1 case Intended => newSize % PAGE != 0 } {
        size := size / PAGE * PAGE;
        size := size + PAGE;
      }
      if start + size > max {
        return true;
      }
      RoundedExactly(variant, newSize, size);
      TouchPages(size);
      AlignedSum(start, size);
      AlignedSum(start, end - start);
      if old(Backed()) {
        ExpandCovers(old(backed), start - FOOTER, start, end - start, size);
        StillNearlyCovered(old(backed), old(present), start - FOOTER, start, end - start, size);
      }
      end := start + size;
      panicked := false;
    }

    /** The loop of expand: every page it comes to gets a frame and is mapped. */
    method TouchPages(size: nat)
      requires start <= end < start + size
      modifies this`backed, this`present
      ensures backed == old(backed) + Touched(start, end - start, size)
      ensures present == old(present) + Touched(start, end - start, size)
    {
      var i := end - start;
      while i < size
        invariant backed + Touched(start, i, size) == old(backed) + Touched(start, end - start, size)
        invariant present + Touched(start, i, size) == old(present) + Touched(start, end - start, size)
        decreases size - i
      {
        backed, present := backed + {(start + i) / PAGE}, present + {(start + i) / PAGE};
        i := i + PAGE;
      }
    }

    /** The loop that looks for the index entry with the highest address. */
    method Endmost() returns (idx: int)
      requires index.Valid() && forall a :: a in index.Contents() ==> a > 0
      ensures idx == -1 <==> index.size == 0
      ensures idx != -1 ==> 0 <= idx < index.size && forall a :: a in index.Contents() ==> a <= index.Contents()[idx]
    {
      idx := -1;
      var value := 0;
      var i := 0;
      while i < index.size
        invariant 0 <= i <= index.size
        invariant idx == -1 <==> i == 0
        invariant idx == -1 ==> value == 0
        invariant idx != -1 ==> 0 <= idx < i && value == index.Contents()[idx]
        invariant forall j :: 0 <= j < i ==> index.Contents()[j] <= value
      {
        var tmp := index.Lookup(i);
        assert tmp in index.Contents();
        if tmp > value {
          value := tmp;
          idx := i;
        }
        i := i + 1;
      }
    }

    /** Writes a hole behind the old end of the heap and indexes it. */
    method AddHole(oldEnd: nat)
      requires Room() && start <= oldEnd && oldEnd + OVERHEAD <= end && index.size < index.data.Length
      modifies mem, index, index.data
      ensures var x := Block(oldEnd, end - oldEnd, true); IsBlock(mem[..], x) && HasFooter(mem[..], x, oldEnd)
      ensures SameOutside(old(mem[..]), mem[..], oldEnd, end)
      ensures index.Valid() && Index() == old(Index()) + multiset{oldEnd} && index.size == old(index.size) + 1
      ensures index.Contents() == Inserted(old(index.Contents()), oldEnd, BySize(mem[..]))
    {
      WriteBlock(mem, Block(oldEnd, end - oldEnd, true));
      InsertedItems(index.Contents(), oldEnd, BySize(mem[..]));
      index.Insert(oldEnd, BySize(mem[..]));
    }

    /** A heap whose blocks are in order, behind a word that has not changed, is in order. */
    lemma Shapes(m: seq<byte>)
      requires Room() && end - start >= HEAP_MIN_SIZE && (variant.Intended? ==> end % PAGE == 0)
      requires HeapIs(mem[..], start, end, Index(), blocks) && start - FOOTER + 4 <= |m|
      requires Word(mem[..], start - FOOTER) == Word(m, start - FOOTER) != MAGIC
      ensures Shaped()
    {
    }

    lemma AllIndexed()
      requires Shaped()
      ensures HEAP_MIN_SIZE <= end - start && Word(mem[..], start - FOOTER) != MAGIC
      ensures HeapIs(mem[..], start, end, Index(), blocks)
      ensures forall a :: a in index.Contents() <==> a in Holes(blocks)
      ensures forall a :: a in index.Contents() ==> start <= a && a + OVERHEAD <= end
    {
      assert forall a :: a in index.Contents() <==> a in Index();
      forall a | a in index.Contents() ensures start <= a && a + OVERHEAD <= end {
        var k := HolesAt(blocks, a);
        TilesAt(mem[..], start, end, blocks, k);
      }
    }

    /** Decides where the new room goes: to the indexed hole with the highest address, if there is one.
        What the code intends is that this hole reaches to the old end of the heap. */
    method ChooseHole(oldEnd: nat) returns (idx: int, ghost k: nat)
      requires Room() && start + OVERHEAD <= oldEnd <= end
      requires HeapIs(mem[..], start, oldEnd, Index(), blocks)
      requires forall a :: a in index.Contents() <==> a in Holes(blocks)
      requires forall a :: a in index.Contents() ==> start <= a && a + OVERHEAD <= oldEnd
      ensures blocks != [] && (idx == -1 ==> !blocks[|blocks| - 1].hole && GrowSafe(variant, blocks))
      ensures idx != -1 ==> 0 <= idx < index.size && k < |blocks| && blocks[k].hole
      ensures idx != -1 ==> blocks[k].addr == index.Contents()[idx] && IsBlock(mem[..], blocks[k])
      ensures idx != -1 ==> start <= blocks[k].addr && blocks[k].End() <= oldEnd
      ensures idx != -1 ==> (k == |blocks| - 1 <==> GrowSafe(variant, blocks))
      ensures idx != -1 ==> forall a :: a in Holes(blocks) ==> a <= blocks[k].addr
      ensures RoomEnd(variant, blocks, oldEnd, end) == if idx == -1 then end else blocks[k].End() + (end - oldEnd)
      ensures RoomEnd(variant, blocks, oldEnd, end) <= end
      ensures GrowSafe(variant, blocks) ==> RoomEnd(variant, blocks, oldEnd, end) == end
    {
      hide Coalesced, Footed, SortedBySize;
      k := 0;
      idx := Endmost();
      if idx != -1 {
        assert index.Contents()[idx] in index.Contents();
        k := HolesAt(blocks, index.Contents()[idx]);
        TilesAt(mem[..], start, oldEnd, blocks, k);
        LastHole(mem[..], start, oldEnd, blocks, k);
        HolesHas(blocks, k);
        if variant.Intended? {
          var header := index.Lookup(idx);
          var size := Read32(mem, header + 8);
          if header + size != oldEnd {
            idx := -1;
          }
        }
        if idx != -1 {
          RoomEndIs(variant, mem[..], start, oldEnd, end, blocks, k);
        }
      } else {
        NoHoles(index.Contents(), blocks);
      }
    }

    method AddLast(oldEnd: nat)
      requires Room() && start <= oldEnd && oldEnd + OVERHEAD <= end && index.size < index.data.Length
      requires HeapIs(mem[..], start, oldEnd, Index(), blocks) && blocks != [] && !blocks[|blocks| - 1].hole
      requires forall a :: a in index.Contents() ==> a + OVERHEAD <= oldEnd
      modifies this`blocks, mem, index, index.data
      ensures Room() && HeapIs(mem[..], start, end, Index(), blocks) && blocks == Grown(old(blocks), oldEnd, end)
      ensures SameOutside(old(mem[..]), mem[..], oldEnd, end) && index.size <= old(index.size) + 1
      ensures LiveKept(old(mem[..]), mem[..], old(blocks), blocks)
      ensures old(InOrder()) ==> InOrder()
    {
      hide HeapIs, SameOutside, LiveKept, Grown, SortedBySize, IsBlock, HasFooter, SizeAt, BySize, Word, Inserted,
        Holes;
      AddHole(oldEnd);
      SizesBefore(old(mem[..]), mem[..], oldEnd, end, old(index.Contents()));
      if old(InOrder()) {
        StillInOrder(old(mem[..]), mem[..], old(index.Contents()));
        InsertedInOrder(mem[..], old(index.Contents()), oldEnd);
      }
      GrowFresh(old(mem[..]), mem[..], start, oldEnd, end, old(Index()), blocks);
      blocks := Grown(blocks, oldEnd, end);
    }

    /** The indexed hole at position k takes the new room. The heap stays well-formed if it is the last block. */
    method Enlarge(idx: nat, oldEnd: nat, ghost k: nat)
      requires Room() && start <= oldEnd && oldEnd + OVERHEAD <= end
      requires HeapIs(mem[..], start, oldEnd, Index(), blocks) && blocks != []
      requires idx < index.size && k < |blocks| && blocks[k].hole && index.Contents()[idx] == blocks[k].addr
      requires IsBlock(mem[..], blocks[k]) && start <= blocks[k].addr && blocks[k].End() <= oldEnd
      requires forall a :: a in Holes(blocks) ==> a <= blocks[k].addr
      requires forall a :: a in index.Contents() ==> a in Holes(blocks)
      modifies this`blocks, mem
      ensures Room() && index.Contents() == old(index.Contents())
      ensures k == |old(blocks)| - 1 ==>
        HeapIs(mem[..], start, end, Index(), blocks) && blocks == Grown(old(blocks), oldEnd, end)
      ensures k < |old(blocks)| - 1 ==>
        && IsBlock(mem[..], old(blocks)[k].(size := old(blocks)[k].size + (end - oldEnd)))
        && forall a :: a in index.Contents() && a != old(blocks)[k].addr ==>
             SizeAt(mem[..], a) == old(SizeAt(mem[..], a))
      ensures SameOutside(old(mem[..]), mem[..], old(blocks)[k].addr, end)
      ensures k == |old(blocks)| - 1 ==> LiveKept(old(mem[..]), mem[..], old(blocks), blocks)
      ensures old(InOrder()) ==> InOrderBut(old(blocks)[k].addr)
    {
      hide HeapIs, SameOutside, LiveKept, Grown, SortedBySize, SortedBut, IsBlock, HasFooter, SizeAt, BySize, Word,
        Holes;
      var header := index.Lookup(idx);
      EnlargeHole(mem, header, end - oldEnd, blocks[k]);
      SameWider(old(mem[..]), mem[..], blocks[k].addr, blocks[k].End() + (end - oldEnd), blocks[k].addr, end);
      OtherSizes(old(mem[..]), mem[..], start, oldEnd, end, Index(), blocks, k);
      if old(InOrder()) {
        SortedAnyway(old(mem[..]), index.Contents(), blocks[k].addr);
        ResizedInPlace(old(mem[..]), mem[..], index.Contents(), blocks[k].addr);
      }
      if k == |blocks| - 1 {
        GrowLast(old(mem[..]), mem[..], start, oldEnd, end, Index(), blocks);
        blocks := Grown(blocks, oldEnd, end);
      }
    }

    /** Whether the stores into the header of a new hole, or into the footer behind an enlarged one, fault. */
    method StoresFault(idx: int, oldEnd: nat, ghost k: nat) returns (faulted: bool)
      requires Room() && start + OVERHEAD <= oldEnd && oldEnd + OVERHEAD <= end
      requires NearlyCovered(present, start - FOOTER, end)
      requires idx != -1 ==> 0 <= idx < index.size && k < |blocks| && index.Contents()[idx] == blocks[k].addr
      requires idx != -1 ==> start <= blocks[k].addr && blocks[k].End() <= oldEnd && IsBlock(mem[..], blocks[k])
      ensures var last := if idx == -1 then end else blocks[k].End() + (end - oldEnd);
        && (faulted <==> (last - 1) / PAGE !in present)
        && (!faulted ==> Covered(present, start - FOOTER, last))
    {
      var last := end;
      if idx != -1 {
        var header := index.Lookup(idx);
        var size := Read32(mem, header + 8);
        last := header + size + (end - oldEnd);
      }
      LastByteDecides(present, start - FOOTER, end, last);
      faulted := !Mapped(present, last - FOOTER, last) || (idx == -1 && !Mapped(present, oldEnd, oldEnd + HEADER));
    }

    /** The room between the old end and the new one goes to a hole or becomes one. The kernel stops there if the
        last byte of that hole is not mapped. */
    method PlaceRoom(oldEnd: nat) returns (faulted: bool, ghost k: nat)
      requires Room() && start + OVERHEAD <= oldEnd && oldEnd + OVERHEAD <= end && index.size < index.data.Length
      requires HeapIs(mem[..], start, oldEnd, Index(), blocks) && NearlyCovered(present, start - FOOTER, end)
      requires forall a :: a in index.Contents() <==> a in Holes(blocks)
      requires forall a :: a in index.Contents() ==> start <= a && a + OVERHEAD <= oldEnd
      modifies this`blocks, mem, index, index.data
      ensures Room() && SameOutside(old(mem[..]), mem[..], start, end)
      ensures faulted <==> (RoomEnd(variant, old(blocks), oldEnd, end) - 1) / PAGE !in present
      ensures !faulted ==> Covered(present, start - FOOTER, RoomEnd(variant, old(blocks), oldEnd, end))
      ensures !faulted && GrowSafe(variant, old(blocks)) ==>
        && RoomEnd(variant, old(blocks), oldEnd, end) == end
        && HeapIs(mem[..], start, end, Index(), blocks) && blocks == Grown(old(blocks), oldEnd, end)
        && index.size <= old(index.size) + 1 && LiveKept(old(mem[..]), mem[..], old(blocks), blocks)
        && (old(InOrder()) ==> InOrderBut(blocks[|blocks| - 1].addr))
      ensures !faulted && !GrowSafe(variant, old(blocks)) ==>
        && index.Contents() == old(index.Contents()) && k < |old(blocks)| - 1 && old(blocks)[k].hole
        && IsBlock(mem[..], old(blocks)[k].(size := old(blocks)[k].size + (end - oldEnd)))
        && old(blocks)[k].End() + (end - oldEnd) == RoomEnd(variant, old(blocks), oldEnd, end) <= end
        && forall a :: a in index.Contents() && a != old(blocks)[k].addr ==>
             SizeAt(mem[..], a) == old(SizeAt(mem[..], a))
    {
      hide GrowSafe, RoomEnd, LiveKept, Covered, NearlyCovered, SortedBySize, SortedBut, HeapIs, IsBlock, Holes, Word;
      var idx;
      idx, k := ChooseHole(oldEnd);
      faulted := StoresFault(idx, oldEnd, k);
      if faulted {
        return;
      }
      if idx == -1 {
        AddLast(oldEnd);
        if InOrder() {
          SortedAnyway(mem[..], index.Contents(), oldEnd);
        }
      } else {
        Enlarge(idx, oldEnd, k);
      }
    }

    /** The heap has been extended from the end hi by at least n bytes. */
    ghost predicate Extended(n: nat, hi: nat, hadFrame: set<nat>, wasPresent: set<nat>)
      requires start <= hi
      reads this`end, this`backed, this`present
    {
      && start <= end && RoundsTo(variant, hi - start + n, end - start)
      && backed == hadFrame + Touched(start, hi - start, end - start)
      && present == wasPresent + Touched(start, hi - start, end - start)
    }

    /** Extends the heap by at least n bytes. Nothing in it changes. */
    method Extend(n: nat) returns (panicked: bool)
      requires Valid() && OVERHEAD <= n && end + n + PAGE <= WORD
      modifies this`end, this`backed, this`present
      ensures Room() && (panicked <==> start + Rounded(variant, old(end) - start + n) > max)
      ensures panicked ==> end == old(end) && Valid()
      ensures !panicked ==> Extended(n, old(end), old(backed), old(present)) && old(end) + n <= end
      ensures !panicked ==> (Backed() <==> (end - 1) / PAGE in backed) && NearlyCovered(present, start - FOOTER, end)
      ensures variant.Intended? ==> Backed() && end % PAGE == 0
    {
      hide Covered, NearlyCovered, StepsFit, Touched, Backed, HeapIs, Word;
      panicked := Expand(end - start + n);
    }

    /** The first half of alloc when no hole fits: the heap is extended, and the new room is placed. */
    method Grow(n: nat) returns (o: Outcome, ghost k: nat)
      requires Valid() && index.size < index.data.Length && OVERHEAD <= n && end + n + PAGE <= WORD
      modifies this`end, this`backed, this`present, this`blocks, mem, index, index.data
      ensures o.Panic? <==> start + Rounded(variant, old(end) - start + n) > max
      ensures o.Panic? ==> mem[..] == old(mem[..]) && index.Contents() == old(index.Contents())
      ensures o.Panic? ==> blocks == old(blocks) && end == old(end) && Valid()
      ensures !o.Panic? ==> Extended(n, old(end), old(backed), old(present)) && old(end) + n <= end
      ensures o.Fault? <==> !o.Panic? && (RoomEnd(variant, old(blocks), old(end), end) - 1) / PAGE !in present
      ensures Room() && !o.Stray?
      ensures o.Done? ==> Covered(present, start - FOOTER, RoomEnd(variant, old(blocks), old(end), end))
      ensures o.Done? ==> RoomEnd(variant, old(blocks), old(end), end) <= end
      ensures o.Done? && GrowSafe(variant, old(blocks)) ==>
        && RoomEnd(variant, old(blocks), old(end), end) == end
        && Shaped() && blocks == Grown(old(blocks), old(end), end) && index.size <= old(index.size) + 1
        && LiveKept(old(mem[..]), mem[..], old(blocks), blocks)
        && (old(InOrder()) ==> InOrderBut(blocks[|blocks| - 1].addr))
      ensures !o.Panic? ==> (Backed() <==> (end - 1) / PAGE in backed)
      ensures variant.Intended? ==> Backed()
      ensures o.Done? && !GrowSafe(variant, old(blocks)) ==>
        && index.Contents() == old(index.Contents()) && k < |old(blocks)| - 1 && old(blocks)[k].hole
        && IsBlock(mem[..], old(blocks)[k].(size := old(blocks)[k].size + (end - old(end))))
        && old(blocks)[k].End() <= old(end)
        && old(blocks)[k].End() + (end - old(end)) == RoomEnd(variant, old(blocks), old(end), end) <= end
        && forall a :: a in index.Contents() && a != old(blocks)[k].addr ==>
             SizeAt(mem[..], a) == old(SizeAt(mem[..], a))
    {
      hide SameOutside, HeapIs, LiveKept, GrowSafe, IsBlock, Rounded, Covered, Word, SortedBySize, SortedBut, RoomEnd,
        NearlyCovered, Backed, Touched, Grown, Holes, Extended, Shaped, RoundsTo, InOrderBut;
      k := 0;
      AllIndexed();
      var oldEnd := end;
      var panicked := Extend(n);
      if panicked {
        return Panic, k;
      }
      var faulted;
      faulted, k := PlaceRoom(oldEnd);
      WordBefore(old(mem[..]), mem[..], start, end, start - FOOTER);
      o := if faulted then Fault else Done;
      if !faulted && GrowSafe(variant, old(blocks)) {
        Shapes(old(mem[..]));
      }
    }

    // -------------------------------------------------------------------------------------------
    // Allocation

    /** A hole that holds n bytes is found in the index. */
    lemma FitIndexed(n: nat)
      requires Shaped()
      ensures Readable()
      ensures (exists a :: a in index.Contents() && SizeAt(mem[..], a) >= n) <==> Fits(blocks, n)
    {
      AllIndexed();
      if b :| b in blocks && b.hole && b.size >= n {
        var i :| 0 <= i < |blocks| && blocks[i] == b;
        HolesHas(blocks, i);
        TilesAt(mem[..], start, end, blocks, i);
        assert b.addr in index.Contents() && SizeAt(mem[..], b.addr) >= n;
      }
      if a :| a in index.Contents() && SizeAt(mem[..], a) >= n {
        var i := HolesAt(blocks, a);
        TilesAt(mem[..], start, end, blocks, i);
      }
    }

    /** The position in the tiling of the hole in slot i of the index. */
    lemma Indexed(i: nat) returns (k: nat)
      requires Shaped() && i < index.size
      ensures k < |blocks| && blocks[k].hole && blocks[k].addr == index.Contents()[i]
      ensures IsBlock(mem[..], blocks[k]) && start <= blocks[k].addr && blocks[k].End() <= end
      ensures SizeAt(mem[..], index.Contents()[i]) == blocks[k].size
    {
      assert index.Contents()[i] in Index();
      k := HolesAt(blocks, index.Contents()[i]);
      TilesAt(mem[..], start, end, blocks, k);
    }

    /** Carve, seen on the whole heap. In a heap that is not well-formed any more only the header counts. */
    method Take(i: nat, n: nat, ghost b: Block, ghost k: nat, ghost wellFormed: bool) returns (p: nat)
      requires Room() && i < index.size < index.data.Length && index.Contents()[i] == b.addr
      requires b.hole && IsBlock(mem[..], b) && start <= b.addr && b.End() <= end && OVERHEAD <= n <= b.size
      requires wellFormed ==> Shaped() && k < |blocks| && blocks[k] == b
      requires Covered(present, b.addr, b.End())
      modifies this`blocks, mem, index, index.data
      ensures p == b.addr + HEADER
      ensures wellFormed ==> Shaped() && AllocatedAt(old(blocks), blocks, k, n, p)
      ensures wellFormed && old(InOrderBut(b.addr)) ==> InOrder()
      ensures wellFormed ==> LiveKept(old(mem[..]), mem[..], old(blocks), blocks)
    {
      hide HeapIs, SameOutside, LiveKept, SortedBySize, SortedBut, Carved, CarvedIndex, AfterAlloc, IsBlock, Word;
      ghost var m, ix, bs := mem[..], index.Contents(), blocks;
      p := Carve(i, n, b);
      if wellFormed {
        blocks := AfterAlloc(blocks, k, n);
        Took(m, ix, bs, i, n, k);
      }
    }

    /** The heap after n bytes have been taken from the hole at position k of the blocks bs. */
    lemma Took(m: seq<byte>, ix: seq<nat>, bs: seq<Block>, i: nat, n: nat, k: nat)
      requires Room() && end - start >= HEAP_MIN_SIZE && (variant.Intended? ==> end % PAGE == 0)
      requires HeapIs(m, start, end, multiset(ix), bs) && k < |bs| && i < |ix| && ix[i] == bs[k].addr
      requires bs[k].hole && n <= bs[k].size && start <= bs[k].addr
      requires SameOutside(m, mem[..], bs[k].addr, bs[k].End()) && Word(m, start - FOOTER) != MAGIC
      requires Tiles(mem[..], bs[k].addr, bs[k].End(), Carved(bs[k], n)) && Footed(mem[..], Carved(bs[k], n))
      requires index.Contents() == CarvedIndex(ix, i, bs[k], n, BySize(mem[..])) && blocks == AfterAlloc(bs, k, n)
      ensures Shaped() && LiveKept(m, mem[..], bs, blocks)
      ensures SortedBut(m, ix, bs[k].addr) ==> InOrder()
    {
      hide HeapIs, LiveKept, AfterAlloc, CarvedIndex, Carved, Word;
      WordBefore(m, mem[..], bs[k].addr, bs[k].End(), start - FOOTER);
      CarveKeeps(m, mem[..], start, end, ix, index.Contents(), i, bs, k, n);
      if SortedBut(m, ix, bs[k].addr) {
        AllocKeepsSorted(m, mem[..], start, end, ix, index.Contents(), i, bs, k, n);
      }
    }

    /** The search of the recursive call, which does not fail. */
    method FindAgain(n: nat) returns (i: nat)
      requires Readable() && exists a :: a in index.Contents() && SizeAt(mem[..], a) >= n
      ensures i < index.size && index.Contents()[i] in index.Contents()
      ensures SizeAt(mem[..], index.Contents()[i]) >= n
    {
      ghost var a :| a in index.Contents() && SizeAt(mem[..], a) >= n;
      var found := FindSmallestHole(n);
      assert a in index.Contents();
      i := found;
      assert index.Contents()[i] in index.Contents();
    }

    /** The room behind the old end is in the index as part of the one hole that holds n bytes. */
    lemma NewRoomIndexed(bs: seq<Block>, hi: nat, n: nat)
      requires Shaped() && hi + n <= end && blocks == Grown(bs, hi, end) && !Fits(bs, n)
      ensures Readable() && exists a :: a in index.Contents() && SizeAt(mem[..], a) >= n
      ensures forall a :: a in index.Contents() ==> start <= a
      ensures forall a :: a in index.Contents() && SizeAt(mem[..], a) >= n ==>
        a == blocks[|blocks| - 1].addr && a + SizeAt(mem[..], a) <= end
    {
      AllIndexed();
      GrownFits(bs, hi, end, n);
      GrownFitsOnly(bs, hi, end, n);
      FitIndexed(n);
      forall a | a in index.Contents() && SizeAt(mem[..], a) >= n
        ensures a == blocks[|blocks| - 1].addr && a + SizeAt(mem[..], a) <= end
      {
        assert a in Index();
        var j := HolesAt(blocks, a);
        TilesAt(mem[..], start, end, blocks, j);
      }
    }

    /** The second search, after the heap of memory m and blocks bs has been extended from the end hi. */
    method FindGrown(n: nat, ghost m: seq<byte>, ghost bs: seq<Block>, ghost hi: nat, ghost k: nat) returns (i: nat)
      requires Room() && hi + n <= end && !Fits(bs, n)
      requires RoomEnd(variant, bs, hi, end) <= end && Covered(present, start - FOOTER, RoomEnd(variant, bs, hi, end))
      requires GrowSafe(variant, bs) ==>
        Shaped() && blocks == Grown(bs, hi, end) && RoomEnd(variant, bs, hi, end) == end
      requires !GrowSafe(variant, bs) ==>
        && HeapIs(m, start, hi, Index(), bs) && k < |bs| - 1 && bs[k].hole && bs[k].End() <= hi
        && IsBlock(mem[..], bs[k].(size := bs[k].size + (end - hi)))
        && bs[k].End() + (end - hi) == RoomEnd(variant, bs, hi, end)
        && (forall a :: a in index.Contents() ==> start <= a && a + OVERHEAD <= hi && SizeAt(m, a) < n)
        && (forall a :: a in index.Contents() && a != bs[k].addr ==> SizeAt(mem[..], a) == SizeAt(m, a))
      ensures i < index.size
      ensures start <= index.Contents()[i] && n <= SizeAt(mem[..], index.Contents()[i])
      ensures Covered(present, index.Contents()[i], index.Contents()[i] + SizeAt(mem[..], index.Contents()[i]))
      ensures GrowSafe(variant, bs) ==> index.Contents()[i] == blocks[|blocks| - 1].addr
      ensures !GrowSafe(variant, bs) ==>
        && IsBlock(mem[..], Block(index.Contents()[i], SizeAt(mem[..], index.Contents()[i]), true))
        && index.Contents()[i] + SizeAt(mem[..], index.Contents()[i]) <= end
        && exists b :: b in bs && !b.hole && index.Contents()[i] + HEADER <= b.addr < index.Contents()[i] + n
    {
      hide HeapIs, IsBlock, Grown, Covered, Word, SizeAt, GrowSafe, Fits, RoomEnd, Shaped;
      if GrowSafe(variant, bs) {
        NewRoomIndexed(bs, hi, n);
      } else {
        ReachesOver(m, mem[..], start, hi, end, index.Contents(), bs, k, n);
      }
      i := FindAgain(n);
      ghost var a := index.Contents()[i];
      CoveredWithin(present, start - FOOTER, RoomEnd(variant, bs, hi, end), a, a + SizeAt(mem[..], a));
    }

    /** Extends the heap and searches again. In the unsafe case the hole found reaches over a block in use. */
    method GrowAndFind(n: nat) returns (o: Outcome, i: nat)
      requires Valid() && index.size + 1 < index.data.Length && OVERHEAD <= n && end + n + PAGE <= WORD
      requires !Fits(blocks, n)
      modifies this`end, this`backed, this`present, this`blocks, mem, index, index.data
      ensures o.Panic? <==> start + Rounded(variant, old(end) - start + n) > max
      ensures o.Panic? ==> Valid() && mem[..] == old(mem[..]) && blocks == old(blocks) && end == old(end)
      ensures !o.Panic? ==> Extended(n, old(end), old(backed), old(present)) && old(end) + n <= end
      ensures o.Fault? <==> !o.Panic? && (RoomEnd(variant, old(blocks), old(end), end) - 1) / PAGE !in present
      ensures !o.Stray? && (!o.Panic? ==> (Backed() <==> (end - 1) / PAGE in backed))
      ensures variant.Intended? ==> Backed()
      ensures o.Done? ==> Room() && i < index.size < index.data.Length
      ensures o.Done? ==> start <= index.Contents()[i] && n <= SizeAt(mem[..], index.Contents()[i])
      ensures o.Done? ==>
        Covered(present, index.Contents()[i], index.Contents()[i] + SizeAt(mem[..], index.Contents()[i]))
      ensures o.Done? && GrowSafe(variant, old(blocks)) ==>
        && Shaped() && blocks == Grown(old(blocks), old(end), end)
        && RoomEnd(variant, old(blocks), old(end), end) == end
        && LiveKept(old(mem[..]), mem[..], old(blocks), blocks)
        && (old(InOrder()) ==> InOrderBut(index.Contents()[i]))
      ensures o.Done? && !GrowSafe(variant, old(blocks)) ==>
        && IsBlock(mem[..], Block(index.Contents()[i], SizeAt(mem[..], index.Contents()[i]), true))
        && index.Contents()[i] + SizeAt(mem[..], index.Contents()[i]) <= end
        && exists b :: b in old(blocks) && !b.hole
             && index.Contents()[i] + HEADER <= b.addr < index.Contents()[i] + n
    {
      hide HeapIs, LiveKept, IsBlock, Rounded, Grown, Covered, Word, SizeAt, GrowSafe, Fits, SortedBySize, SortedBut,
        RoomEnd, Extended, Shaped, Backed;
      i := 0;
      AllIndexed();
      FitIndexed(n);
      ghost var k;
      o, k := Grow(n);
      if o.Done? {
        i := FindGrown(n, old(mem[..]), old(blocks), old(end), k);
      }
    }

    /** The hole that alloc takes: one that fits, or, with the heap extended, the one that got the new room. */
    method FindRoom(n: nat) returns (o: Outcome, i: nat, ghost shaped: bool)
      requires Valid() && index.size + 1 < index.data.Length && OVERHEAD <= n && end + n + PAGE <= WORD
      modifies this`end, this`backed, this`present, this`blocks, mem, index, index.data
      ensures o.Panic? <==> !Fits(old(blocks), n) && start + Rounded(variant, old(end) - start + n) > max
      ensures o.Panic? ==> Valid() && mem[..] == old(mem[..]) && blocks == old(blocks) && end == old(end)
      ensures !o.Panic? && !Fits(old(blocks), n) ==>
        && Extended(n, old(end), old(backed), old(present)) && old(end) + n <= end
        && (Backed() <==> (end - 1) / PAGE in backed)
      ensures o.Fault? <==>
        && !o.Panic? && !Fits(old(blocks), n) && old(end) <= end
        && (RoomEnd(variant, old(blocks), old(end), end) - 1) / PAGE !in present
      ensures shaped <==> Fits(old(blocks), n) || GrowSafe(variant, old(blocks))
      ensures !o.Stray? && (variant.Intended? ==> Backed())
      ensures o.Done? ==> Room() && i < index.size < index.data.Length
      ensures o.Done? ==> start <= index.Contents()[i] && n <= SizeAt(mem[..], index.Contents()[i])
      ensures o.Done? ==>
        Covered(present, index.Contents()[i], index.Contents()[i] + SizeAt(mem[..], index.Contents()[i]))
      ensures Fits(old(blocks), n) ==> Valid() && blocks == old(blocks) && end == old(end)
      ensures Fits(old(blocks), n) && old(InOrder()) ==>
        && InOrder()
        && forall k ::
             0 <= k < |blocks| && blocks[k].addr == index.Contents()[i] ==> NoneSmaller(blocks, blocks[k].size, n)
      ensures o.Done? && !Fits(old(blocks), n) && shaped ==>
        && Shaped() && blocks == Grown(old(blocks), old(end), end)
        && RoomEnd(variant, old(blocks), old(end), end) == end
      ensures o.Done? && shaped ==> Shaped() && LiveKept(old(mem[..]), mem[..], old(blocks), blocks)
      ensures o.Done? && shaped && old(InOrder()) ==> InOrderBut(index.Contents()[i])
      ensures o.Done? && !shaped ==>
        && IsBlock(mem[..], Block(index.Contents()[i], SizeAt(mem[..], index.Contents()[i]), true))
        && index.Contents()[i] + SizeAt(mem[..], index.Contents()[i]) <= end
        && exists b :: b in old(blocks) && !b.hole
             && index.Contents()[i] + HEADER <= b.addr < index.Contents()[i] + n
    {
      hide HeapIs, LiveKept, IsBlock, Rounded, Grown, Covered, Word, SizeAt, GrowSafe, Fits, SortedBySize, SortedBut,
        NoneSmaller, RoomEnd, Extended;
      shaped := true;
      FitIndexed(n);
      var found := FindSmallestHole(n);
      if found == -1 {
        shaped := GrowSafe(variant, blocks);
        o, i := GrowAndFind(n);
      } else {
        o, i := Done, found;
        FoundAsIs(i, n);
      }
    }

    /** What is known of a hole found in the heap as it is. */
    lemma FoundAsIs(i: nat, n: nat)
      requires Valid() && i < index.size && SizeAt(mem[..], index.Contents()[i]) >= n
      requires forall j :: 0 <= j < i ==> SizeAt(mem[..], index.Contents()[j]) < n
      ensures Fits(blocks, n) && start <= index.Contents()[i]
      ensures Covered(present, index.Contents()[i], index.Contents()[i] + SizeAt(mem[..], index.Contents()[i]))
      ensures LiveKept(mem[..], mem[..], blocks, blocks)
      ensures InOrder() ==>
        && InOrderBut(index.Contents()[i])
        && forall k ::
             0 <= k < |blocks| && blocks[k].addr == index.Contents()[i] ==> NoneSmaller(blocks, blocks[k].size, n)
    {
      assert index.Contents()[i] in index.Contents();
      var k := Indexed(i);
      assert blocks[k] in blocks;
      LiveUnchanged(mem[..], start, end, blocks);
      if InOrder() {
        SortedAnyway(mem[..], index.Contents(), index.Contents()[i]);
        BestHoles(i, n);
      }
    }

    lemma BestHoles(i: nat, n: nat)
      requires Shaped() && InOrder() && i < index.size && SizeAt(mem[..], index.Contents()[i]) >= n
      requires forall j :: 0 <= j < i ==> SizeAt(mem[..], index.Contents()[j]) < n
      ensures forall k ::
        0 <= k < |blocks| && blocks[k].addr == index.Contents()[i] ==> NoneSmaller(blocks, blocks[k].size, n)
    {
      forall k | 0 <= k < |blocks| && blocks[k].addr == index.Contents()[i]
        ensures NoneSmaller(blocks, blocks[k].size, n)
      {
        BestHole(mem[..], start, end, index.Contents(), i, blocks, k, n);
      }
    }

    /** alloc, for a block that need not be page-aligned.

        When a hole fits, the block is cut from it. Otherwise the heap is extended, or, exactly if its maximal
        address does not allow that, the kernel stops at an assertion of expand. The search that follows finds
        the new room, so alloc calls itself at most once. If the extension was safe, the heap is well-formed
        again, the new block is apart from all blocks in use, and these have kept their place and their bytes.
        If it was not, the new block overlaps one. */
    method Alloc(size: nat) returns (r: Allocation)
      requires Valid() && index.size + 1 < index.data.Length
      requires end + size + OVERHEAD + PAGE <= WORD
      modifies this`end, this`backed, this`present, this`blocks, mem, index, index.data
      ensures r.Panicked? <==>
        && !Fits(old(blocks), size + OVERHEAD)
        && start + Rounded(variant, old(end) - start + size + OVERHEAD) > max
      ensures r.Faulted? <==>
        && !r.Panicked? && !Fits(old(blocks), size + OVERHEAD) && old(end) <= end
        && (RoomEnd(variant, old(blocks), old(end), end) - 1) / PAGE !in present
      ensures r.Panicked? ==> Valid() && mem[..] == old(mem[..]) && blocks == old(blocks) && end == old(end)
      ensures !r.Panicked? && !Fits(old(blocks), size + OVERHEAD) ==>
        Extended(size + OVERHEAD, old(end), old(backed), old(present)) && old(end) + size + OVERHEAD <= end
      ensures Fits(old(blocks), size + OVERHEAD) ==>
        && r.Allocated? && Valid() && end == old(end)
        && CutFromHole(old(blocks), blocks, size + OVERHEAD, r.p)
      ensures Fits(old(blocks), size + OVERHEAD) && old(InOrder()) ==>
        r.Allocated? && CutFromSmallest(old(blocks), blocks, size + OVERHEAD, r.p)
      ensures r.Allocated? && !Fits(old(blocks), size + OVERHEAD) && GrowSafe(variant, old(blocks)) ==>
        && Shaped() && (Valid() <==> (end - 1) / PAGE in backed)
        && CutFromHole(Grown(old(blocks), old(end), end), blocks, size + OVERHEAD, r.p)
      ensures r.Allocated? && (Fits(old(blocks), size + OVERHEAD) || GrowSafe(variant, old(blocks))) ==>
        LiveKept(old(mem[..]), mem[..], old(blocks), blocks) && (old(InOrder()) ==> InOrder())
      ensures r.Allocated? && !Fits(old(blocks), size + OVERHEAD) && !GrowSafe(variant, old(blocks)) ==>
        exists b :: b in old(blocks) && !b.hole && r.p <= b.addr < r.p + size + FOOTER
      ensures variant.Intended? ==> Backed() && !r.Faulted?
    {
      hide HeapIs, LiveKept, Rounded, Grown, Covered, Word, GrowSafe, Fits, SortedBySize, SortedBut, NoneSmaller,
        AllocatedAt, CutFromHole, CutFromSmallest, RoomEnd, Extended, IsBlock;
      var n := size + OVERHEAD;
      var o, i;
      ghost var shaped;
      o, i, shaped := FindRoom(n);
      if o.Panic? {
        return Panicked;
      }
      if o.Fault? {
        IntendedRoom(old(blocks), old(end));
        return Faulted;
      }
      ghost var m, bs, k := mem[..], blocks, 0;
      ghost var b := Block(index.Contents()[i], SizeAt(mem[..], index.Contents()[i]), true);
      if shaped {
        k := Indexed(i);
      }
      var p := Take(i, n, b, k, shaped);
      r := Allocated(p);
      if shaped {
        LiveKeptTwice(old(mem[..]), m, mem[..], old(blocks), bs, blocks);
        CutHere(bs, blocks, k, n, p);
        if NoneSmaller(bs, bs[k].size, n) {
          CutFromSmallestHere(bs, blocks, k, n, p);
        }
      }
    }

    /** As intended, no page is missing behind an extension. */
    lemma IntendedRoom(bs: seq<Block>, hi: nat)
      requires hi <= end && start < end && (variant.Intended? ==> Backed())
      ensures variant.Intended? ==> (RoomEnd(variant, bs, hi, end) - 1) / PAGE in present
    {
    }

    // -------------------------------------------------------------------------------------------
    // Freeing

    /** Reads the magic number and, behind it, the is_hole byte at testHeader, and the size if that is a hole. */
    method Look(testHeader: nat) returns (faulted: bool, hole: bool)
      requires testHeader + HEADER <= mem.Length
      ensures faulted <==> LookBehind(mem[..], present, testHeader).Fault?
      ensures hole <==> LookBehind(mem[..], present, testHeader).Panic?
    {
      faulted, hole := !Mapped(present, testHeader, testHeader + 4), false;
      if faulted {
        return;
      }
      var magic := Read32(mem, testHeader);
      if magic == MAGIC {
        faulted := !Mapped(present, testHeader + 4, testHeader + 5);
        if !faulted && mem[testHeader + 4] != 0 {
          faulted := !Mapped(present, testHeader + 8, testHeader + HEADER);
          hole := !faulted;
        }
      }
    }

    /** What the look to the right finds: the next block, or what lies behind the heap. */
    lemma LookRight(l: seq<Block>, cur: Block, r: seq<Block>, listed: bool)
      requires Room() && Backed() && start <= cur.addr
      requires Mid(mem[..], start, end, Index(), l, cur, r, listed)
      ensures cur.End() + HEADER <= mem.Length && (r == [] ==> cur.End() == end)
      ensures r != [] ==> LookBehind(mem[..], present, cur.End()) == if r[0].hole then Panic else Done
    {
      TilesBounds(mem[..], cur.End(), end, r);
      if r != [] {
        TilesBounds(mem[..], r[0].End(), end, r[1..]);
        LookInside(mem[..], present, start - FOOTER, end, cur.End());
      }
    }

    /** The unification with the block to the right, if its header says that it is a hole. The code as
        written leaves the footer of that hole as it is. The look behind the heap may fault, and what looks like
        the header of a hole there is not in the index, so that an assertion fails. */
    method MergeRight(header: nat, footer: nat, ghost l: seq<Block>, ghost cur: Block, ghost r: seq<Block>,
      ghost listed: bool)
      returns (o: Outcome, newFooter: nat, ghost cur': Block, ghost r': seq<Block>, ghost back: nat)
      requires Room() && Backed() && index.size < index.data.Length && start <= cur.addr
      requires Mid(mem[..], start, end, Index(), l, cur, r, listed) && HasFooter(mem[..], cur, cur.addr)
      requires header == cur.addr && footer == cur.End() - FOOTER
      modifies mem, index, index.data
      ensures Room() && index.size <= old(index.size)
      ensures o == if r == [] then LookBehind(old(mem[..]), present, end) else Done
      ensures o.Done? ==> Mid(mem[..], start, end, Index(), l, cur', r', listed)
      ensures o.Done? ==> newFooter == cur'.End() - FOOTER && cur'.addr == cur.addr
      ensures o.Done? ==> SameOutside(old(mem[..]), mem[..], cur.addr, cur'.End())
      ensures o.Done? ==> RightMerged(variant, cur, r, cur', r', back) && HasFooter(mem[..], cur', back)
      ensures o.Done? ==> Thinned(old(index.Contents()), index.Contents(), cur.addr)
    {
      hide LookBehind, Mid, Thinned, HasFooter, Covered;
      o, newFooter, cur', r', back := Done, footer, cur, r, cur.addr;
      var testHeader := footer + FOOTER;
      LookRight(l, cur, r, listed);
      ThinnedNot(index.Contents(), cur.addr);
      var faulted, hole := Look(testHeader);
      if faulted {
        o := Fault;
      } else if hole {
        var panicked;
        panicked, newFooter, cur', r' := SwallowRight(header, testHeader, l, cur, r, listed);
        back := if variant.Intended? || r == [] then cur.addr else r[0].addr;
        o := if panicked then Panic else Done;
      }
    }

    /** Takes an entry out of the index. */
    method Unlist(i: nat, ghost a: nat)
      requires Room() && i < index.size < index.data.Length && index.Contents()[i] == a
      modifies index, index.data
      ensures Room() && old(Index()) == Index() + multiset{a} && index.size == old(index.size) - 1
      ensures index.Contents() == Removed(old(index.Contents()), i) && mem[..] == old(mem[..])
    {
      RemovedItems(index.Contents(), i);
      index.Remove(i);
    }

    method SwallowRight(header: nat, testHeader: nat, ghost l: seq<Block>, ghost cur: Block, ghost r: seq<Block>,
      ghost listed: bool)
      returns (panicked: bool, newFooter: nat, ghost cur': Block, ghost r': seq<Block>)
      requires Room() && index.size < index.data.Length && start <= cur.addr
      requires Mid(mem[..], start, end, Index(), l, cur, r, listed) && (r != [] ==> r[0].hole)
      requires header == cur.addr && testHeader == cur.End() && testHeader + HEADER <= mem.Length
      modifies mem, index, index.data
      ensures Room() && index.size <= old(index.size)
      ensures panicked <==> r == []
      ensures !panicked ==> Mid(mem[..], start, end, Index(), l, cur', r', listed)
      ensures !panicked ==> r' == r[1..] && cur' == Block(cur.addr, cur.size + r[0].size, true)
      ensures !panicked ==> newFooter == cur'.End() - FOOTER
      ensures !panicked ==> SameOutside(old(mem[..]), mem[..], cur.addr, cur'.End())
      ensures !panicked ==> HasFooter(mem[..], cur', if variant.Intended? then cur.addr else r[0].addr)
      ensures !panicked ==> Thinned(old(index.Contents()), index.Contents(), cur.addr)
    {
      hide SameOutside, IsBlock, HasFooter, Thinned, Mid, Word, Removed, Holes, Footed, Tiles;
      panicked, newFooter, cur', r' := true, 0, cur, r;
      ghost var m := mem[..];
      MidParts(m, start, end, Index(), l, cur, r, listed);
      RightListed(m, start, end, Index(), l, cur, r, listed);
      var far := AddSizes(mem, header, testHeader, end, cur, r);
      ghost var m' := mem[..];
      var i := index.Find(testHeader);
      assert testHeader in index.Contents() <==> testHeader in Index();
      if i == index.size {
        return;
      }
      Unlist(i, testHeader);
      RemovedThins(old(index.Contents()), i, cur.addr);
      FarFooter(mem, far, header, variant.Intended?, cur, r[0]);
      panicked, newFooter, cur', r' := false, far, Block(cur.addr, cur.size + r[0].size, true), r[1..];
      assert r[0].End() == cur'.End();
      SameJoined(m, m', mem[..], cur.addr, cur.End(), far, cur'.End());
      JoinedRight(m, mem[..], start, end, old(Index()), Index(), l, cur, r, listed);
    }

    /** contract: frames of pages behind the new end are given back, one for every step down from the old end. */
    method Contract(newSize: nat) returns (newLength: nat)
      requires Room() && newSize < end - start && Contracted(variant, newSize) <= end - start
      modifies this`end, this`backed
      ensures newLength == Contracted(variant, newSize) && end == start + newLength
      ensures ContractsTo(variant, newSize, newLength)
      ensures backed == old(backed) - Released(start, old(end) - start - PAGE, newLength)
      ensures old(Backed()) ==>
        (Backed() <==> !(newLength + PAGE < old(end) - start && 0 < newLength % PAGE < (old(end) - start) % PAGE))
    {
      newLength := newSize;
      if match variant { case AsWritten => newSize / PAGE % 2 == 1 case Intended => newSize % PAGE != 0 } {
        newLength := match variant { case AsWritten => PAGE case Intended => newLength / PAGE * PAGE };
        newLength := newLength + PAGE;
      }
      if newLength < HEAP_MIN_SIZE {
        newLength := HEAP_MIN_SIZE;
      }
      ContractedExactly(variant, newSize, newLength);
      ghost var first := end - start - PAGE;
      var i: int := end - start - PAGE;
      while newLength < i
        invariant end == old(end)
        invariant backed - Released(start, i, newLength) == old(backed) - Released(start, first, newLength)
      {
        backed := backed - {(start + i) / PAGE};
        i := i - PAGE;
      }
      if old(Backed()) {
        ContractCovers(old(backed), start - FOOTER, start, end - start, newLength);
      }
      end := start + newLength;
    }

    /** The merged hole, nothing of which is left, is looked up in the index and removed. The code as written
        looks for the block that was to the right of it. */
    method Drop(header: nat, testHeader: nat, doAdd: bool, ghost oldEnd: nat, ghost l: seq<Block>, ghost cur: Block)
      returns (addAfter: bool)
      requires Room() && index.size < index.data.Length && header == cur.addr < testHeader
      requires Mid(mem[..], start, oldEnd, Index(), l, cur, [], !doAdd)
      modifies index, index.data
      ensures Room() && index.size <= old(index.size)
      ensures variant.Intended? ==> !addAfter && Index() == Holes(l) && cur.addr !in Index()
      ensures !variant.Intended? ==> addAfter || cur.addr in Index()
      ensures Thinned(old(index.Contents()), index.Contents(), cur.addr)
    {
      MidOwn(mem[..], start, oldEnd, Index(), l, cur, !doAdd);
      var target := if variant.Intended? then header else testHeader;
      var i := index.Find(target);
      Dropped(index.Contents(), i, target, Holes(l), cur.addr, !doAdd);
      if i < index.size {
        RemovedThins(index.Contents(), i, cur.addr);
        index.Remove(i);
      }
      addAfter := if variant.Intended? then false else doAdd;
    }

    /** What the unsigned subtraction leaves of the merged hole. */
    method RestOf(header: nat, oldLength: nat, newLength: nat, ghost cur: Block) returns (rest: nat)
      requires Room() && FOOTER <= newLength <= oldLength && end == start + newLength && start + oldLength <= max
      requires IsBlock(mem[..], cur) && start <= cur.addr == header && cur.End() == start + oldLength
      ensures if cur.addr <= end then rest == end - cur.addr else cur.size < rest < WORD
      ensures Wrap(header + rest - FOOTER) + FOOTER <= mem.Length
    {
      RestSize(start, cur.addr, oldLength, newLength);
      var size := Read32(mem, header + 8);
      rest := Wrap(size - (oldLength - newLength));
    }

    /** After the contraction: the merged hole is cut off at the new end, or given up. */
    method CutBack(header: nat, testHeader: nat, doAdd: bool, oldLength: nat, newLength: nat, ghost l: seq<Block>,
      ghost cur: Block)
      returns (addAfter: bool)
      requires Room() && index.size < index.data.Length && start <= cur.addr && header == cur.addr < testHeader
      requires FOOTER <= newLength <= oldLength && end == start + newLength && start + oldLength <= max
      requires Mid(mem[..], start, start + oldLength, Index(), l, cur, [], !doAdd)
      modifies mem, index, index.data
      ensures Room() && index.size <= old(index.size)
      ensures cur.addr + OVERHEAD <= end ==>
        && addAfter == doAdd && HasFooter(mem[..], Block(cur.addr, end - cur.addr, true), cur.addr)
        && Mid(mem[..], start, end, Index(), l, Block(cur.addr, end - cur.addr, true), [], !doAdd)
        && SameOutside(old(mem[..]), mem[..], cur.addr, start + oldLength)
      ensures variant.Intended? && end == cur.addr ==>
        && !addAfter && mem[..] == old(mem[..]) && Index() == Holes(l)
      ensures LeavesRoom(variant, cur.addr, end) && doAdd ==> cur.addr !in Index()
      ensures end < cur.addr + OVERHEAD && (variant.Intended? ==> end != cur.addr) ==> addAfter || cur.addr in Index()
      ensures Thinned(old(index.Contents()), index.Contents(), cur.addr)
    {
      hide SameOutside, IsBlock, HasFooter, Thinned, Mid, Wrap, Word, Tiles, Footed;
      addAfter := doAdd;
      MidOwn(mem[..], start, start + oldLength, Index(), l, cur, !doAdd);
      MidParts(mem[..], start, start + oldLength, Index(), l, cur, [], !doAdd);
      ThinnedNot(index.Contents(), cur.addr);
      var rest := RestOf(header, oldLength, newLength, cur);
      if rest > 0 {
        Resize(mem, header, rest, cur);
        if cur.addr + OVERHEAD <= end {
          CutOff(old(mem[..]), mem[..], start, start + oldLength, end, Index(), l, cur, !doAdd);
        }
      } else {
        addAfter := Drop(header, testHeader, doAdd, start + oldLength, l, cur);
      }
    }

    /** What free comes to before it goes on to the contraction: the look behind the heap, for the last block. */
    ghost function Sight(k: nat): (o: Outcome)
      requires end + HEADER <= mem.Length
      reads this`end, this`present, this`blocks, mem
      ensures !o.Stray?
    {
      if k + 1 == |blocks| then LookBehind(mem[..], present, end) else Done
    }

    /** The first part of free: the block at position k is marked as a hole and unified with its neighbours. */
    method Unify(header: nat, ghost k: nat)
      returns (o: Outcome, newHeader: nat, newFooter: nat, testHeader: nat, doAdd: bool,
               ghost l: seq<Block>, ghost cur: Block, ghost r: seq<Block>)
      requires Valid() && index.size < index.data.Length
      requires k < |blocks| && !blocks[k].hole && header == blocks[k].addr
      modifies mem, index, index.data
      ensures Room() && index.size <= old(index.size) && newHeader < testHeader
      ensures o == old(Sight(k))
      ensures o.Done? ==> l == LeftPart(blocks, k) && cur == FreedHole(blocks, k) && r == RightPart(blocks, k)
      ensures o.Done? ==>
        && Mid(mem[..], start, end, Index(), l, cur, r, !doAdd)
        && newHeader == cur.addr && newFooter == cur.End() - FOOTER
        && SameOutside(old(mem[..]), mem[..], cur.addr, cur.End())
        && HasFooter(mem[..], cur, Back(variant, blocks, k))
      ensures o.Done? ==> Thinned(old(index.Contents()), index.Contents(), cur.addr)
      ensures doAdd <==> EndsInUse(blocks[..k])
    {
      hide HeapIs, Mid, SameOutside, HasFooter, LeftPart, RightPart, FreedHole, LeftHole, Back, Thinned, Word,
        EndsInUse,
        LookBehind, Covered;
      ghost var m := mem[..];
      ghost var whole;
      newHeader, newFooter, doAdd, l, whole := MarkAndMergeLeft(header, k);
      ghost var m' := mem[..];
      LookKept(m, m', present, whole.addr, whole.End(), end);
      MidParts(m', start, end, Index(), l, whole, blocks[k + 1..], !doAdd);
      testHeader := newFooter + FOOTER;
      ghost var back;
      o, newFooter, cur, r, back := MergeRight(newHeader, newFooter, l, whole, blocks[k + 1..], !doAdd);
      if o.Done? {
        RightUnified(variant, blocks, k, whole, cur, r, back);
        SameJoined(m, m', mem[..], whole.addr, whole.End(), cur.addr, cur.End());
      }
    }

    method MarkAndMergeLeft(header: nat, ghost k: nat)
      returns (newHeader: nat, footer: nat, doAdd: bool, ghost l: seq<Block>, ghost cur: Block)
      requires Shaped() && k < |blocks| && !blocks[k].hole && header == blocks[k].addr
      modifies mem
      ensures Room() && footer == cur.End() - FOOTER && newHeader == cur.addr && start <= cur.addr
      ensures Mid(mem[..], start, end, Index(), l, cur, blocks[k + 1..], !doAdd) && HasFooter(mem[..], cur, cur.addr)
      ensures l == LeftPart(blocks, k) && cur == LeftHole(blocks, k) && cur.End() == blocks[k].End() <= end
      ensures SameOutside(old(mem[..]), mem[..], cur.addr, cur.End())
      ensures doAdd <==> EndsInUse(blocks[..k])
    {
      hide HeapIs, Mid, SameOutside, HasFooter, LeftPart, LeftHole, Word, EndsInUse, LeftMerged;
      ghost var m := mem[..];
      footer := Mark(mem, header, start, end, Index(), blocks, k);
      ghost var m' := mem[..];
      WordBefore(m, m', blocks[k].addr, blocks[k].End(), start - FOOTER);
      newHeader, doAdd, l, cur :=
        MergeLeft(mem, start, header, footer, end, Index(), blocks[..k], blocks[k].(hole := true), blocks[k + 1..]);
      LeftUnified(blocks, k, l, cur);
      SameWider(m, m', blocks[k].addr, blocks[k].End(), cur.addr, cur.End());
      SameJoined(m, m', mem[..], cur.addr, cur.End(), cur.addr, cur.End());
    }

    /** Inserts the merged hole if it is not in the index yet. */
    method ListHole(header: nat, doAdd: bool)
      requires Room() && index.size < index.data.Length
      modifies index, index.data
      ensures Room() && Index() == old(Index()) + (if doAdd then multiset{header} else multiset{})
      ensures mem[..] == old(mem[..]) && (!doAdd ==> index.Contents() == old(index.Contents()))
      ensures !doAdd || header !in old(index.Contents()) ==> Thinned(old(index.Contents()), index.Contents(), header)
      ensures doAdd && header !in old(index.Contents()) ==> BesideOrdered(mem[..], index.Contents(), header)
    {
      if doAdd {
        InsertedItems(index.Contents(), header, BySize(mem[..]));
        if header !in index.Contents() {
          InsertedThins(mem[..], index.Contents(), header);
        }
        index.Insert(header, BySize(mem[..]));
      }
    }

    /** The end of free when the merged hole is not the last block. */
    method FinishInside(header: nat, doAdd: bool, ghost l: seq<Block>, ghost cur: Block, ghost r: seq<Block>,
      ghost back: nat)
      requires Room() && index.size < index.data.Length && header == cur.addr && r != []
      requires Mid(mem[..], start, end, Index(), l, cur, r, !doAdd) && HasFooter(mem[..], cur, back)
      requires Coalesced(l) && EndsInUse(l) && Coalesced(r) && StartsInUse(r)
      modifies index, index.data
      ensures Room() && mem[..] == old(mem[..])
      ensures back == cur.addr <==> HeapIs(mem[..], start, end, Index(), l + [cur] + r)
      ensures back == cur.addr <==> WellFormed(mem[..], start, end, Index())
      ensures Thinned(old(index.Contents()), index.Contents(), cur.addr)
      ensures doAdd ==> BesideOrdered(mem[..], index.Contents(), cur.addr)
    {
      hide HeapIs, WellFormed, HasFooter, Coalesced, Thinned, BesideOrdered;
      if doAdd {
        MidFresh(mem[..], start, end, Index(), l, cur, r);
        assert header in index.Contents() <==> header in Index();
      }
      ListHole(header, doAdd);
      MergeVerdict(mem[..], start, end, Index(), l, cur, r, back);
    }

    /** The end of free when the merged hole is the last block: the heap is contracted. In a stray case the page
        with the size of that hole has just been given back. */
    method FinishLast(header: nat, testHeader: nat, doAdd: bool, ghost l: seq<Block>, ghost cur: Block)
      returns (stray: bool)
      requires Room() && Backed() && index.size < index.data.Length
      requires start <= cur.addr && header == cur.addr < testHeader
      requires Mid(mem[..], start, end, Index(), l, cur, [], !doAdd)
      requires Coalesced(l) && EndsInUse(l)
      requires HEAP_MIN_SIZE <= end - start && (variant.Intended? ==> end % PAGE == 0)
      modifies this`end, this`backed, mem, index, index.data
      ensures Room() && end == start + Contracted(variant, cur.addr - start) <= old(end)
      ensures backed == old(backed) - Released(start, old(end) - start - PAGE, end - start)
      ensures stray <==> !Mapped(backed, cur.addr + 8, cur.addr + HEADER)
      ensures LeavesRoom(variant, cur.addr, end) ==> !stray && Backed()
      ensures variant.Intended? ==> !stray && Backed()
      ensures HEAP_MIN_SIZE <= end - start && (variant.Intended? ==> end % PAGE == 0)
      ensures !stray ==>
        (LeavesRoom(variant, cur.addr, end) <==> HeapIs(mem[..], start, end, Index(), CutOffAt(l, cur, end)))
      ensures LeavesRoom(variant, cur.addr, end) ==> SameOutside(old(mem[..]), mem[..], cur.addr, cur.End())
      ensures !stray ==> (LeavesRoom(variant, cur.addr, end) <==> WellFormed(mem[..], start, end, Index()))
      ensures LeavesRoom(variant, cur.addr, end) ==> Thinned(old(index.Contents()), index.Contents(), cur.addr)
      ensures LeavesRoom(variant, cur.addr, end) && doAdd ==> BesideOrdered(mem[..], index.Contents(), cur.addr)
    {
      hide SameOutside, WellFormed, HeapIs, Thinned, BesideOrdered, LeavesRoom, Coalesced, EndsInUse, Contracted,
        Covered,
        CutOffAt, ShrinkSafe, Mapped, Released;
      var oldLength := end - start;
      ghost var pages := backed;
      MidParts(mem[..], start, end, Index(), l, cur, [], !doAdd);
      ContractedFits(variant, cur.addr - start, end - start);
      assert cur.End() == end;
      ContractedAligned(variant, start, header - start);
      var newLength := Contract(header - start);
      ContractionSafe(pages, oldLength, cur.addr);
      stray := !Mapped(backed, header + 8, header + HEADER);
      if !stray {
        FinishCut(header, testHeader, doAdd, oldLength, newLength, l, cur);
      }
    }

    /** What a contraction leaves mapped. */
    lemma ContractionSafe(pages: set<nat>, length: nat, a: nat)
      requires start % PAGE == 0 && FOOTER <= start <= a && a + OVERHEAD <= start + length
      requires Covered(pages, start - FOOTER, start + length) && (variant.Intended? ==> length % PAGE == 0)
      requires end == start + Contracted(variant, a - start) && end - start <= length
      requires backed == pages - Released(start, length - PAGE, end - start)
      ensures LeavesRoom(variant, a, end) || variant.Intended? ==>
        Mapped(backed, a + 8, a + HEADER) && Covered(backed, start - FOOTER, end)
    {
      if LeavesRoom(variant, a, end) || variant.Intended? {
        if variant.Intended? {
          ContractedAbove(a - start);
          ContractedAligned(variant, start, a - start);
        } else {
          ContractedSafe(variant, a - start);
        }
        ContractCovers(pages, start - FOOTER, start, length, end - start);
        SizeStays(pages, start - FOOTER, start, length, end - start, a);
      }
    }

    method FinishCut(header: nat, testHeader: nat, doAdd: bool, oldLength: nat, newLength: nat, ghost l: seq<Block>,
      ghost cur: Block)
      requires Room() && index.size < index.data.Length && start <= cur.addr && header == cur.addr < testHeader
      requires FOOTER <= newLength <= oldLength && end == start + newLength && start + oldLength <= max
      requires Mid(mem[..], start, start + oldLength, Index(), l, cur, [], !doAdd)
      requires Coalesced(l) && EndsInUse(l)
      modifies mem, index, index.data
      ensures Room()
      ensures LeavesRoom(variant, cur.addr, end) <==> HeapIs(mem[..], start, end, Index(), CutOffAt(l, cur, end))
      ensures LeavesRoom(variant, cur.addr, end) ==>
        SameOutside(old(mem[..]), mem[..], cur.addr, start + oldLength)
      ensures LeavesRoom(variant, cur.addr, end) <==> WellFormed(mem[..], start, end, Index())
      ensures LeavesRoom(variant, cur.addr, end) ==> Thinned(old(index.Contents()), index.Contents(), cur.addr)
      ensures LeavesRoom(variant, cur.addr, end) && doAdd ==> BesideOrdered(mem[..], index.Contents(), cur.addr)
    {
      hide WellFormed, HasFooter, Coalesced, Thinned, BesideOrdered, CutOffAt, Tiles, Holes;
      GivenUp(mem[..], start, start + oldLength, Index(), l, cur, !doAdd);
      var addAfter := CutBack(header, testHeader, doAdd, oldLength, newLength, l, cur);
      ghost var s := index.Contents();
      assert cur.addr in s <==> cur.addr in Index();
      ListHole(header, addAfter);
      if LeavesRoom(variant, cur.addr, end) {
        ThinnedTwice(old(index.Contents()), s, index.Contents(), cur.addr);
        if doAdd && !addAfter {
          BesideNothing(mem[..], s, cur.addr);
        }
      }
      CutVerdict(variant, mem[..], start, end, Index(), l, cur);
    }

    /** The second part of free: whether the merged hole is kept, cut off or given up. */
    method Settle(header: nat, footer: nat, testHeader: nat, doAdd: bool,
      ghost l: seq<Block>, ghost cur: Block, ghost r: seq<Block>, ghost back: nat)
      returns (stray: bool)
      requires Room() && Backed() && index.size < index.data.Length && start <= cur.addr == header < testHeader
      requires footer == cur.End() - FOOTER
      requires Mid(mem[..], start, end, Index(), l, cur, r, !doAdd) && HasFooter(mem[..], cur, back)
      requires Coalesced(l) && EndsInUse(l) && Coalesced(r) && StartsInUse(r)
      requires HEAP_MIN_SIZE <= end - start && (variant.Intended? ==> end % PAGE == 0)
      modifies this`end, this`backed, mem, index, index.data
      ensures Room() && end <= old(end) && end - start >= HEAP_MIN_SIZE && (variant.Intended? ==> end % PAGE == 0)
      ensures stray <==> r == [] && !Mapped(backed, cur.addr + 8, cur.addr + HEADER)
      ensures SettleSafe(variant, cur, r, back, end) || variant.Intended? ==> !stray && Backed()
      ensures !stray ==>
        (SettleSafe(variant, cur, r, back, end) <==> HeapIs(mem[..], start, end, Index(), Settled(l, cur, r, end)))
      ensures SettleSafe(variant, cur, r, back, end) ==> SameOutside(old(mem[..]), mem[..], cur.addr, cur.End())
      ensures !stray ==> (SettleSafe(variant, cur, r, back, end) <==> WellFormed(mem[..], start, end, Index()))
      ensures r == [] ==>
        && end == start + Contracted(variant, cur.addr - start)
        && backed == old(backed) - Released(start, old(end) - start - PAGE, end - start)
      ensures r != [] ==> end == old(end) && backed == old(backed)
      ensures var safe := SettleSafe(variant, cur, r, back, end);
        && (safe ==> Thinned(old(index.Contents()), index.Contents(), cur.addr))
        && (safe && doAdd ==> BesideOrdered(mem[..], index.Contents(), cur.addr))
    {
      hide WellFormed, HeapIs, Thinned, BesideOrdered, LeavesRoom, Coalesced, EndsInUse, Contracted, Covered, CutOffAt,
        HasFooter, Mapped, Released;
      TilesBounds(mem[..], cur.End(), end, r);
      stray := false;
      if footer + FOOTER == end {
        assert r == [];
        stray := FinishLast(header, testHeader, doAdd, l, cur);
      } else {
        FinishInside(header, doAdd, l, cur, r, back);
      }
    }

    /** What lies around the block to be freed. */
    lemma Surroundings(k: nat)
      requires Shaped() && k < |blocks|
      ensures var l, r := LeftPart(blocks, k), RightPart(blocks, k);
        Coalesced(l) && EndsInUse(l) && Coalesced(r) && StartsInUse(r)
      ensures start <= FreedHole(blocks, k).addr && Tiles(mem[..], start, end, blocks)
      ensures HEAP_MIN_SIZE <= end - start && (variant.Intended? ==> end % PAGE == 0)
      ensures Word(mem[..], start - FOOTER) != MAGIC
    {
      FreedSides(blocks, k);
      FreedExtent(mem[..], start, end, blocks, k);
    }

    /** The heap is in order again exactly if its blocks are. */
    lemma InOrderAgain(m: seq<byte>, safe: bool)
      requires Room() && end - start >= HEAP_MIN_SIZE && (variant.Intended? ==> end % PAGE == 0)
      requires safe <==> HeapIs(mem[..], start, end, Index(), blocks)
      requires safe ==> Backed() && start - FOOTER + 4 <= |m|
      requires safe ==> Word(mem[..], start - FOOTER) == Word(m, start - FOOTER) != MAGIC
      ensures safe <==> Valid()
    {
    }

    /** free, for a block that there is. */
    method Release(header: nat, ghost k: nat)
      returns (o: Outcome, ghost l: seq<Block>, ghost cur: Block, ghost r: seq<Block>)
      requires Valid() && index.size < index.data.Length
      requires k < |blocks| && !blocks[k].hole && header == blocks[k].addr && start <= FreedHole(blocks, k).addr
      modifies this`end, this`backed, mem, index, index.data
      ensures
        if !old(Sight(k)).Done? then o == old(Sight(k)) && end == old(end) && backed == old(backed)
        else
          && l == LeftPart(blocks, k) && cur == FreedHole(blocks, k) && r == RightPart(blocks, k)
          && o == if r == [] && !Mapped(backed, cur.addr + 8, cur.addr + HEADER) then Stray else Done
      ensures o.Done? ==> Room() && end - start >= HEAP_MIN_SIZE && (variant.Intended? ==> end % PAGE == 0)
      ensures var safe := SettleSafe(variant, cur, r, Back(variant, blocks, k), end);
        && (o.Done? && safe ==> SameOutside(old(mem[..]), mem[..], cur.addr, cur.End()))
        && (o.Done? ==> (safe <==> WellFormed(mem[..], start, end, Index())))
        && (o.Done? ==> (safe <==> HeapIs(mem[..], start, end, Index(), Settled(l, cur, r, end))))
        && (o.Done? && (safe || variant.Intended?) ==> Backed())
        && (o.Stray? ==> !safe && variant.AsWritten?)
      ensures (o.Done? || o.Stray?) && r == [] ==>
        && end == start + Contracted(variant, cur.addr - start)
        && backed == old(backed) - Released(start, old(end) - start - PAGE, end - start)
      ensures o.Done? && r != [] ==> end == old(end) && backed == old(backed)
      ensures end <= old(end)
      ensures var safe := SettleSafe(variant, cur, r, Back(variant, blocks, k), end);
        o.Done? && safe ==>
          && Thinned(old(index.Contents()), index.Contents(), cur.addr)
          && (EndsInUse(blocks[..k]) ==> BesideOrdered(mem[..], index.Contents(), cur.addr))
    {
      hide WellFormed, Thinned, BesideOrdered, LeavesRoom, Coalesced, EndsInUse, StartsInUse, Contracted, Covered,
        CutOffAt, HasFooter, Settled, SettleSafe, Mid, LeftPart, RightPart, FreedHole, Back, Sight, Mapped, Released,
        Shaped, Backed, HeapIs;
      Surroundings(k);
      var head, footer, testHeader, doAdd;
      o, head, footer, testHeader, doAdd, l, cur, r := Unify(header, k);
      if o.Done? {
        ghost var s := index.Contents();
        var stray := Settle(head, footer, testHeader, doAdd, l, cur, r, Back(variant, blocks, k));
        if SettleSafe(variant, cur, r, Back(variant, blocks, k), end) {
          ThinnedTwice(old(index.Contents()), s, index.Contents(), cur.addr);
        }
        o := if stray then Stray else Done;
      }
    }

    /** free. The block at position k, the one whose payload is at p, becomes a hole together with its
        neighbours. For the last block the code looks behind the heap first: the kernel stops exactly if the look
        faults or finds what looks like the header of a hole. After a contraction as written the page with the
        size of the hole may have been given back; then the code goes astray.

        Otherwise the heap is well-formed afterwards exactly if FreeSafe says so. Then it is the one AfterFree
        describes, and the other blocks in use have kept their place and their bytes. A sorted index stays
        sorted exactly if the entries beside that of the merged hole allow its size, which they do unless the
        hole was merged into one on its left. */
    method Free(p: nat, ghost k: nat) returns (o: Outcome)
      requires Valid() && index.size < index.data.Length
      requires p != 0 ==> k < |blocks| && !blocks[k].hole && p == blocks[k].addr + HEADER
      modifies this`end, this`backed, this`blocks, mem, index, index.data
      ensures p == 0 ==> o.Done? && Valid() && mem[..] == old(mem[..]) && blocks == old(blocks)
      ensures p != 0 && !old(Sight(k)).Done? ==> o == old(Sight(k))
      ensures p != 0 && old(Sight(k)).Done? ==>
        && (o.Done? || o.Stray?)
        && (o.Stray? <==>
              && RightPart(old(blocks), k) == []
              && !Mapped(backed, FreedHole(old(blocks), k).addr + 8, FreedHole(old(blocks), k).addr + HEADER))
      ensures p != 0 && old(Sight(k)).Done? && RightPart(old(blocks), k) == [] ==>
        start <= end && backed == old(backed) - Released(start, old(end) - start - PAGE, end - start)
      ensures o.Stray? ==> !FreeSafe(variant, old(blocks), k, start) && variant.AsWritten?
      ensures p != 0 && o.Done? ==>
        (FreeSafe(variant, old(blocks), k, start) <==> WellFormed(mem[..], start, end, Index()))
      ensures p != 0 && o.Done? ==> (FreeSafe(variant, old(blocks), k, start) <==> Valid())
      ensures p != 0 && o.Done? && FreeSafe(variant, old(blocks), k, start) ==>
        && blocks == AfterFree(variant, old(blocks), k, start)
        && LiveKeptBut(old(mem[..]), mem[..], old(blocks), blocks, old(blocks)[k])
      ensures p != 0 && o.Done? && FreeSafe(variant, old(blocks), k, start) && old(InOrder()) ==>
        && (InOrder() <==> BesideOrdered(mem[..], index.Contents(), FreedHole(old(blocks), k).addr))
        && (EndsInUse(old(blocks)[..k]) ==> InOrder())
      ensures end <= old(end)
      ensures variant.Intended? && o.Done? ==> Backed()
    {
      hide SameOutside, LiveKeptBut, WellFormed, FreeSafe, SettleSafe, AfterFree, Settled, Back, LeftPart, RightPart,
        FreedHole, Contracted, Covered, SortedBySize, SortedBut, Thinned, BesideOrdered, EndsInUse, Sight, Mapped,
        Released, Shaped, Backed, HeapIs, Tiles, Word;
      if p == 0 {
        return Done;
      }
      ghost var m, bs, hi := mem[..], blocks, end;
      Surroundings(k);
      ghost var l, cur, r;
      o, l, cur, r := Release(p - HEADER, k);
      if o.Done? || o.Stray? {
        SettleIsFree(variant, m, start, hi, bs, k, end);
      }
      if o.Done? {
        blocks := Settled(l, cur, r, end);
        if SettleSafe(variant, cur, r, Back(variant, bs, k), end) {
          Freed(m, mem[..], start, hi, bs, k, variant);
          if SortedBySize(m, old(index.Contents())) {
            OrderAfterFree(m, old(index.Contents()), l, cur, r);
          }
        }
        InOrderAgain(m, FreeSafe(variant, bs, k, start));
      }
    }

    /** When the index is sorted after a free: the merged hole may stand where its left part stood. */
    lemma OrderAfterFree(m: seq<byte>, s: seq<nat>, l: seq<Block>, cur: Block, r: seq<Block>)
      requires SortedBySize(m, s) && Thinned(s, index.Contents(), cur.addr)
      requires SameOutside(m, mem[..], cur.addr, cur.End())
      requires HeapIs(mem[..], start, end, Index(), Settled(l, cur, r, end))
      ensures InOrder() <==> BesideOrdered(mem[..], index.Contents(), cur.addr)
    {
      SortedAnyway(m, s, cur.addr);
      OthersKeepSize(m, mem[..], start, end, index.Contents(), l, cur, r);
      ResizedInPlace(m, mem[..], index.Contents(), cur.addr);
    }
  }
}
