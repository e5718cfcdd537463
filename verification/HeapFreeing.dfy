/** The memory side of free in cpu/kheap.c: merging a freed block with the holes beside it. */
module HeapFreeing {
  import opened Machine
  import opened HeapMemory
  import opened HeapTiling
  import opened HeapMerging

  lemma LeftNeighbour(m: seq<byte>, lo: nat, a: nat, l: seq<Block>)
    requires Tiles(m, lo, a, l) && Footed(m, l) && l != []
    ensures var b := l[|l| - 1];
      IsBlock(m, b) && b.End() == a && FooterIs(m, a - FOOTER, b.addr) && lo <= b.addr
  {
    TilesLast(m, lo, a, l);
    TilesAt(m, lo, a, l, |l| - 1);
    FootedAt(m, l, |l| - 1);
  }

  /** Marks block k as a hole. */
  method Mark(mem: array<byte>, header: nat, ghost start: nat, ghost end: nat, ghost index: multiset<nat>,
    ghost bs: seq<Block>, ghost k: nat)
    returns (footer: nat)
    requires HeapIs(mem[..], start, end, index, bs) && k < |bs| && !bs[k].hole && header == bs[k].addr
    modifies mem
    ensures var cur := bs[k].(hole := true);
      Mid(mem[..], start, end, index, bs[..k], cur, bs[k + 1..], false) && HasFooter(mem[..], cur, cur.addr)
    ensures footer == bs[k].End() - FOOTER && start <= bs[k].addr && bs[k].End() <= end
    ensures SameOutside(old(mem[..]), mem[..], bs[k].addr, bs[k].End())
  {
    TilesAt(mem[..], start, end, bs, k);
    var size := Read32(mem, header + 8);
    footer := header + size - FOOTER;
    mem[header + 4] := 1;
    Marked(old(mem[..]), mem[..], start, end, index, bs, k);
  }

  /** The two stores that join a block to the hole on its left: the footer gets the new header, the new
      header both sizes. */
  method JoinSizes(mem: array<byte>, left: nat, header: nat, footer: nat)
    requires 0 < left && left + OVERHEAD <= header && header + OVERHEAD <= footer + FOOTER <= mem.Length <= WORD
    requires HeaderIs(mem[..], left, true, header - left) && FooterIs(mem[..], footer, header)
    requires HeaderIs(mem[..], header, true, footer + FOOTER - header)
    modifies mem
    ensures HeaderIs(mem[..], left, true, footer + FOOTER - left) && FooterIs(mem[..], footer, left)
    ensures SameOutside(old(mem[..]), mem[..], left, footer + FOOTER)
  {
    var cacheSize := Read32(mem, header + 8);
    ghost var m := mem[..];
    WriteBack(mem, footer, left, header);
    HeaderKept(m, mem[..], left, true, header - left);
    var size := Read32(mem, left + 8);
    m := mem[..];
    WriteSize(mem, left, size + cacheSize, true, size);
    FooterKept(m, mem[..], footer, left);
  }

  /** The unification with the block to the left, if its footer says that it is a hole. In front of the
      heap there is no footer. */
  method MergeLeft(mem: array<byte>, start: nat, oldHeader: nat, footer: nat, ghost end: nat,
    ghost index: multiset<nat>,
    ghost l: seq<Block>, ghost cur: Block, ghost r: seq<Block>)
    returns (header: nat, doAdd: bool, ghost l': seq<Block>, ghost cur': Block)
    requires FOOTER <= start <= mem.Length <= WORD && Word(mem[..], start - FOOTER) != MAGIC
    requires Mid(mem[..], start, end, index, l, cur, r, false) && HasFooter(mem[..], cur, cur.addr)
    requires oldHeader == cur.addr && footer == cur.End() - FOOTER
    modifies mem
    ensures Mid(mem[..], start, end, index, l', cur', r, !doAdd) && HasFooter(mem[..], cur', cur'.addr)
    ensures header == cur'.addr && start <= cur'.addr <= cur.addr && cur'.End() == cur.End()
    ensures SameOutside(old(mem[..]), mem[..], cur'.addr, cur.End())
    ensures LeftMerged(l, cur, l', cur') && (doAdd <==> EndsInUse(l))
  {
    TilesBounds(mem[..], start, cur.addr, l);
    header, doAdd, l', cur' := oldHeader, true, l, cur;
    var testFooter := oldHeader - FOOTER;
    var magic := Read32(mem, testFooter);
    if l != [] {
      LeftNeighbour(mem[..], start, cur.addr, l);
    }
    if magic == MAGIC {
      var left := Read32(mem, testFooter + 4);
      if mem[left + 4] == 1 {
        l', cur' := JoinLeft(mem, left, oldHeader, footer, start, end, index, l, cur, r);
        header := left;
        doAdd := false;
      }
    }
  }

  /** That unification, when the block to the left is a hole. */
  method JoinLeft(mem: array<byte>, left: nat, header: nat, footer: nat, ghost start: nat, ghost end: nat,
    ghost index: multiset<nat>, ghost l: seq<Block>, ghost cur: Block, ghost r: seq<Block>)
    returns (ghost l': seq<Block>, ghost cur': Block)
    requires 0 < start && mem.Length <= WORD && !EndsInUse(l) && left == l[|l| - 1].addr
    requires Mid(mem[..], start, end, index, l, cur, r, false) && HasFooter(mem[..], cur, cur.addr)
    requires header == cur.addr && footer == cur.End() - FOOTER
    modifies mem
    ensures Mid(mem[..], start, end, index, l', cur', r, true) && HasFooter(mem[..], cur', left)
    ensures SameOutside(old(mem[..]), mem[..], left, cur.End())
    ensures LeftMerged(l, cur, l', cur') && cur'.addr == left <= cur.addr && cur'.End() == cur.End()
  {
    LeftNeighbour(mem[..], start, cur.addr, l);
    l', cur' := l[..|l| - 1], Block(left, l[|l| - 1].size + cur.size, true);
    JoinSizes(mem, left, header, footer);
    JoinedLeft(old(mem[..]), mem[..], start, end, index, l, cur, r);
  }

  /** The size of the block at testHeader is added to that of the one at header. Behind the heap, where r is
      empty, whatever lies there is added. */
  method AddSizes(mem: array<byte>, header: nat, testHeader: nat, ghost end: nat, ghost cur: Block, ghost r: seq<Block>)
    returns (footer: int)
    requires header == cur.addr && testHeader == cur.End() && 0 < header && testHeader + HEADER <= mem.Length <= WORD
    requires IsBlock(mem[..], cur) && cur.hole && Tiles(mem[..], cur.End(), end, r) && Footed(mem[..], r)
    modifies mem
    ensures SameOutside(old(mem[..]), mem[..], header, testHeader)
    ensures r != [] ==> footer == r[0].End() - FOOTER && HasFooter(mem[..], r[0], r[0].addr) && r[0].addr == testHeader
    ensures r != [] ==> IsBlock(mem[..], Block(cur.addr, cur.size + r[0].size, true))
  {
    var size := Read32(mem, header + 8);
    var right := Read32(mem, testHeader + 8);
    Write32(mem, header + 8, Wrap(size + right));
    footer := testHeader + right - FOOTER;
    ghost var m := old(mem[..]);
    BytesKept(m, mem[..], header, header + 4);
    if r != [] {
      FooterKept(m, mem[..], r[0].End() - FOOTER, r[0].addr);
    }
  }

  /** The store that the comment in free announces: the far footer gets the new header. */
  method FarFooter(mem: array<byte>, far: nat, header: nat, store: bool, ghost cur: Block, ghost right: Block)
    requires header == cur.addr && far == right.End() - FOOTER && right.addr == cur.End() && mem.Length <= WORD
    requires OVERHEAD <= cur.size && IsBlock(mem[..], Block(cur.addr, cur.size + right.size, true))
    requires HasFooter(mem[..], right, right.addr)
    modifies mem
    ensures var x := Block(cur.addr, cur.size + right.size, true);
      IsBlock(mem[..], x) && HasFooter(mem[..], x, if store then cur.addr else right.addr)
    ensures SameOutside(old(mem[..]), mem[..], far, right.End())
  {
    if store {
      WriteFooter(mem, far, header);
      HeaderKept(old(mem[..]), mem[..], header, true, cur.size + right.size);
    }
  }

  /** The stores that give a block the size it has left, modulo the word size, and a footer at its new end. */
  method Resize(mem: array<byte>, header: nat, rest: nat, ghost cur: Block)
    requires header == cur.addr && 0 < header && cur.hole && IsBlock(mem[..], cur) && mem.Length <= WORD
    requires 0 < rest < WORD && Wrap(header + rest - FOOTER) + FOOTER <= mem.Length
    modifies mem
    ensures OVERHEAD <= rest <= cur.size ==> var x := Block(header, rest, true);
      IsBlock(mem[..], x) && HasFooter(mem[..], x, header) && SameOutside(old(mem[..]), mem[..], header, cur.End())
  {
    ghost var m := mem[..];
    Write32(mem, header + 8, rest);
    BytesKept(m, mem[..], header, header + 4);
    ghost var m' := mem[..];
    var footer := Wrap(header + rest - FOOTER);
    WriteFooter(mem, footer, header);
    if OVERHEAD <= rest <= cur.size {
      HeaderKept(m', mem[..], header, true, rest);
    }
  }
}
