/** The memory side of create_heap and alloc in cpu/kheap.c: laying out a heap, splitting and enlarging holes. */
module HeapAllocating {
  import opened Machine
  import opened HeapMemory
  import opened HeapTiling
  import opened HeapSpec
  import opened OrderedArray

  /** Clears the index area and writes the header of the first hole. */
  method LayOut(mem: array<byte>, base: nat, start: nat, end: nat) returns (index: OrderedArray)
    requires base + FOOTER <= start && start + OVERHEAD <= end <= mem.Length <= WORD && end - start < WORD
    modifies mem
    ensures fresh(index) && fresh(index.data) && index.data.Length == HEAP_INDEX_SIZE
    ensures index.Valid() && index.Contents() == [start]
    ensures HeapIs(mem[..], start, end, multiset{start}, [Block(start, end - start, true)])
    ensures Word(mem[..], start - FOOTER) != MAGIC
  {
    forall i | base <= i < start {
      mem[i] := 0;
    }
    index := new OrderedArray(HEAP_INDEX_SIZE);
    WriteHeader(mem, start, true, end - start);
    index.Insert(start, BySize(mem[..]));
    assert index.Contents() == [start];
    var all := [Block(start, end - start, true)];
    assert all[1..] == [];
    assert Holes(all) == multiset{start};
  }

  /** Writes the header and the footer of a block. */
  method WriteBlock(mem: array<byte>, b: Block)
    requires OVERHEAD <= b.size < WORD && b.End() <= mem.Length <= WORD
    modifies mem
    ensures IsBlock(mem[..], b) && HasFooter(mem[..], b, b.addr)
    ensures SameOutside(old(mem[..]), mem[..], b.addr, b.End())
  {
    WriteHeader(mem, b.addr, b.hole, b.size);
    ghost var m := mem[..];
    WriteFooter(mem, b.End() - FOOTER, b.addr);
    HeaderKept(m, mem[..], b.addr, b.hole, b.size);
  }

  /** Overwrites a hole with a block of n bytes and, behind it, the hole that is left. */
  method SplitHole(mem: array<byte>, end: nat, b: Block, n: nat)
    requires OVERHEAD <= n <= b.size < WORD && b.End() <= end <= mem.Length <= WORD
    modifies mem
    ensures SameOutside(old(mem[..]), mem[..], b.addr, b.End())
    ensures Tiles(mem[..], b.addr, b.End(), Carved(b, n)) && Footed(mem[..], Carved(b, n))
  {
    var first := Carved(b, n)[0];
    WriteBlock(mem, first);
    assert [first][1..] == [];
    if b.size - first.size > 0 {
      ghost var before := mem[..];
      assert Footed(before, [first]);
      var rest := Block(b.addr + n, b.size - n, true);
      assert Carved(b, n) == [first] + [rest] && [rest][1..] == [];
      WriteHeader(mem, rest.addr, true, rest.size);
      ghost var m := mem[..];
      if rest.End() - FOOTER < end {
        WriteFooter(mem, rest.End() - FOOTER, rest.addr);
        HeaderKept(m, mem[..], rest.addr, true, rest.size);
      }
      TilesFrame(before, mem[..], b.addr, rest.addr, [first]);
      TilesJoin(mem[..], b.addr, rest.addr, b.End(), [first], [rest]);
      assert Footed(mem[..], [rest]);
      FootedJoin(mem[..], [first], [rest]);
    } else {
      assert Carved(b, n) == [first];
    }
  }

  /** Adds the growth to the size of a hole and writes its new footer. */
  method EnlargeHole(mem: array<byte>, header: nat, growth: nat, ghost b: Block)
    requires header == b.addr && b.hole && 0 < b.addr && IsBlock(mem[..], b) && b.End() + growth <= mem.Length <= WORD
    modifies mem
    ensures var x := b.(size := b.size + growth); IsBlock(mem[..], x) && HasFooter(mem[..], x, b.addr)
    ensures SameOutside(old(mem[..]), mem[..], b.addr, b.End() + growth)
  {
    var size := Read32(mem, header + 8);
    WriteSize(mem, header, size + growth, true, size);
    ghost var m := mem[..];
    WriteFooter(mem, header + size + growth - FOOTER, header);
    HeaderKept(m, mem[..], header, true, size + growth);
  }
}
