/** What the steps of alloc and free amount to: free undoes alloc, and over a whole run the heap holds
    exactly what was allocated and not yet freed. */
module HeapTheorems {
  import opened Machine
  import opened HeapMemory
  import opened HeapTiling
  import opened HeapMerging
  import opened HeapSpec
  import opened HeapPages

  // ---------------------------------------------------------------------------------------------
  // Free undoes alloc

  /** Freeing the block that was just cut from hole k brings that hole back, whether it was split or absorbed
      whole. Only a hole at the end of the heap may come back shorter, by the contraction. For the code as
      written the heap survives this exactly if nothing was split off, or the hole is at the end and starts
      low enough. */
  lemma FreeUndoesAlloc(v: Variant, m: seq<byte>, lo: nat, hi: nat, index: multiset<nat>, bs: seq<Block>, k: nat,
    n: nat)
    requires HeapIs(m, lo, hi, index, bs) && k < |bs| && bs[k].hole && n <= bs[k].size
    ensures var t := AfterAlloc(bs, k, n);
      && k < |t| && lo <= FreedHole(t, k).addr == bs[k].addr
      && (k < |bs| - 1 ==> AfterFree(v, t, k, lo) == bs)
      && (k == |bs| - 1 ==>
          AfterFree(v, t, k, lo) == CutOffAt(bs[..k], bs[k], lo + Contracted(v, bs[k].addr - lo)))
      && (FreeSafe(v, t, k, lo) <==>
          if k == |bs| - 1 then ShrinkSafe(v, bs[k].addr - lo) else v.Intended? || bs[k].size - n < OVERHEAD)
  {
    TilesAt(m, lo, hi, bs, k);
    FreedAfterAlloc(bs, k, n);
    assert bs == bs[..k] + [bs[k]] + bs[k + 1..];
  }

  lemma FreedAfterAlloc(bs: seq<Block>, k: nat, n: nat)
    requires Coalesced(bs) && k < |bs| && bs[k].hole && n <= bs[k].size
    ensures var t := AfterAlloc(bs, k, n);
      && k < |t| && LeftPart(t, k) == bs[..k] && FreedHole(t, k) == bs[k] && RightPart(t, k) == bs[k + 1..]
      && (StartsInUse(t[k + 1..]) <==> bs[k].size - n < OVERHEAD)
  {
    var c, t := Carved(bs[k], n), AfterAlloc(bs, k, n);
    CoalescedSides(bs, k);
    assert t[..k] == bs[..k] && t[k] == c[0];
    assert t[k + 1..] == c[1..] + bs[k + 1..];
    if |c| == 2 {
      assert t[k + 1] == c[1] && t[k + 2..] == bs[k + 1..];
      assert t[k + 1..][0] == c[1];
    } else {
      assert t[k + 1..] == bs[k + 1..];
    }
  }

  // ---------------------------------------------------------------------------------------------
  // How the code as written gets to calls that are not safe

  /** Two allocations that use up a new heap, and freeing the first one, which is safe, leave a hole in front of a
      block in use: the next request that does not fit the hole extends the heap without safety. */
  lemma GrowingGoesWrong(lo: nat, size: nat, a: nat, n: nat)
    requires OVERHEAD <= a && a + OVERHEAD <= size && a < n
    ensures var new_, split, full, bs := [Block(lo, size, true)],
        [Block(lo, a, false), Block(lo + a, size - a, true)],
        [Block(lo, a, false), Block(lo + a, size - a, false)],
        [Block(lo, a, true), Block(lo + a, size - a, false)];
      && AfterAlloc(new_, 0, a) == split && AfterAlloc(split, 1, size - a) == full
      && FreeSafe(AsWritten, full, 0, lo) && AfterFree(AsWritten, full, 0, lo) == bs
      && !GrowSafe(AsWritten, bs) && !Fits(bs, n)
  {
    var full, bs := [Block(lo, a, false), Block(lo + a, size - a, false)],
      [Block(lo, a, true), Block(lo + a, size - a, false)];
    assert full[..0] == [] && full[1..] == [full[1]];
    HolesHas(bs, 0);
  }

  /** Three allocations that use up a new heap, freeing the second one, which is safe, and allocating less in its
      place leave a block with a hole behind it inside the heap: freeing that block is not safe. */
  lemma MergingGoesWrong(lo: nat, a: nat, b: nat, c: nat, n: nat)
    requires OVERHEAD <= a && OVERHEAD <= c && OVERHEAD <= n && n + OVERHEAD <= b
    ensures var first, last := Block(lo, a, false), Block(lo + a + b, c, false);
      var new_, split, twice, full, hole, bs := [Block(lo, a + b + c, true)],
        [first, Block(lo + a, b + c, true)],
        [first, Block(lo + a, b, false), last.(hole := true)],
        [first, Block(lo + a, b, false), last],
        [first, Block(lo + a, b, true), last],
        [first, Block(lo + a, n, false), Block(lo + a + n, b - n, true), last];
      && AfterAlloc(new_, 0, a) == split && AfterAlloc(split, 1, b) == twice && AfterAlloc(twice, 2, c) == full
      && FreeSafe(AsWritten, full, 1, lo) && AfterFree(AsWritten, full, 1, lo) == hole
      && AfterAlloc(hole, 1, n) == bs && !bs[1].hole && !FreeSafe(AsWritten, bs, 1, lo)
  {
    var first, last := Block(lo, a, false), Block(lo + a + b, c, false);
    var full, bs := [first, Block(lo + a, b, false), last],
      [first, Block(lo + a, n, false), Block(lo + a + n, b - n, true), last];
    assert full[..1] == [first] && full[2..] == [last];
    assert bs[..1] == [first] && bs[2..] == [bs[2], last] && bs[3..] == [last];
  }

  /** Two allocations that use up a new heap leave a last block that it is safe to free exactly if it begins below
      the minimal length. Before that, the look behind it faults if the page behind the new heap is not mapped. */
  lemma ShrinkingGoesWrong(lo: nat, size: nat, a: nat, m: seq<byte>, pages: set<nat>)
    requires OVERHEAD <= a && a + OVERHEAD <= size && (lo + size) % PAGE == 0 && lo + size + HEADER <= |m|
    ensures var new_, split, full := [Block(lo, size, true)],
        [Block(lo, a, false), Block(lo + a, size - a, true)],
        [Block(lo, a, false), Block(lo + a, size - a, false)];
      && AfterAlloc(new_, 0, a) == split && AfterAlloc(split, 1, size - a) == full
      && (FreeSafe(AsWritten, full, 1, lo) <==> a + OVERHEAD <= HEAP_MIN_SIZE)
    ensures LookBehind(m, pages, lo + size).Fault? <==> (lo + size) / PAGE !in pages
  {
    var full := [Block(lo, a, false), Block(lo + a, size - a, false)];
    assert full[..1] == [full[0]] && full[2..] == [];
    ShrinkSafeAsWritten(a);
    LookAligned(m, pages, lo + size);
  }

  /** A new heap that an even request extends, and that a second one then uses up, ends inside a page, so that the
      look behind the last block does not fault; and it is not safe to free that block. */
  lemma ShrinkingReached(lo: nat, size: nat, n: nat, m: seq<byte>, pages: set<nat>)
    requires lo % PAGE == 0 && size % PAGE == 0 && HEAP_MIN_SIZE <= size < n && n % 2 == 0
    requires 0 < n % PAGE <= PAGE - HEADER && Covered(pages, lo, lo + size) && lo + size + n + HEADER <= |m|
    ensures var new_, grown, split, full := [Block(lo, size, true)], [Block(lo, size + n, true)],
        [Block(lo, n, false), Block(lo + n, size, true)], [Block(lo, n, false), Block(lo + n, size, false)];
      && !Fits(new_, n) && GrowSafe(AsWritten, new_) && Rounded(AsWritten, size + n) == size + n
      && Grown(new_, lo + size, lo + (size + n)) == grown && AfterAlloc(grown, 0, n) == split
      && AfterAlloc(split, 1, size) == full && !FreeSafe(AsWritten, full, 1, lo)
    ensures Covered(pages + Touched(lo, size, size + n), lo, lo + size + n)
    ensures !LookBehind(m, pages + Touched(lo, size, size + n), lo + size + n).Fault?
  {
    hide LookBehind, Touched, Covered;
    var full := [Block(lo, n, false), Block(lo + n, size, false)];
    assert full[..1] == [full[0]] && full[2..] == [];
    ShrinkSafeAsWritten(n);
    AlignedSum(size, n);
    EndInside(pages, lo, size, size + n, m);
  }

  lemma EvenUnrounded(size: nat)
    requires size % 2 == 0
    ensures Rounded(AsWritten, size) == size
  {
  }

  /** A request that makes the length of a new heap odd extends it to a page boundary, and the hole that is left
      reaches that far: it is larger than the whole heap was, by a page at most. */
  lemma OddRequest(lo: nat, size: nat, n: nat, length: nat)
    requires lo % PAGE == 0 && OVERHEAD <= size < n && (size + n) % 2 == 1 && length == Rounded(AsWritten, size + n)
    ensures var new_ := [Block(lo, size, true)];
      && !Fits(new_, n) && GrowSafe(AsWritten, new_)
      && AfterAlloc(Grown(new_, lo + size, lo + length), 0, n) == [Block(lo, n, false), Block(lo + n, length - n, true)]
      && (lo + length) % PAGE == 0 && size < length - n <= size + PAGE
  {
    RoundedExactly(AsWritten, size + n, length);
    AlignedSum(lo, length);
  }

  /** Two even requests that do not fit extend a new heap twice, both times at its last hole. The second extension
      leaves the last byte of the heap without a page exactly if the offsets of the two ends do not fit; the store
      into the footer there faults. */
  lemma ExtendingGoesWrong(lo: nat, size: nat, n: nat, n': nat, pages: set<nat>)
    requires lo % PAGE == 0 && size % PAGE == 0 && OVERHEAD <= size < n && size < n' && n % 2 == 0 && n' % 2 == 0
    requires Covered(pages, lo, lo + size) && forall p :: p in pages ==> p * PAGE < lo + size
    ensures var new_, grown, split, hi, hi' := [Block(lo, size, true)], [Block(lo, size + n, true)],
        [Block(lo, n, false), Block(lo + n, size, true)], lo + (size + n), lo + (size + n + n');
      && !Fits(new_, n) && GrowSafe(AsWritten, new_) && Rounded(AsWritten, size + n) == size + n
      && Grown(new_, lo + size, hi) == grown && AfterAlloc(grown, 0, n) == split
      && !Fits(split, n') && GrowSafe(AsWritten, split) && Rounded(AsWritten, size + n + n') == size + n + n'
      && RoomEnd(AsWritten, split, hi, hi') == hi'
    ensures var once := pages + Touched(lo, size, size + n);
      var twice := once + Touched(lo, size + n, size + n + n');
      && Covered(once, lo, lo + (size + n))
      && ((lo + (size + n + n') - 1) / PAGE in twice <==> n % PAGE + (n' - 1) % PAGE < PAGE)
  {
    hide Touched, Covered, Rounded;
    EvenUnrounded(size + n);
    EvenUnrounded(size + n + n');
    ExtendedTwice(pages, lo, size, size + n, size + n + n');
    AlignedSum(size, n);
    assert [Block(lo, n, false), Block(lo + n, size, true)][..1] == [Block(lo, n, false)];
    HolesHas([Block(lo, n, false), Block(lo + n, size, true)], 1);
  }

  // ---------------------------------------------------------------------------------------------
  // Runs of alloc and free

  predicate InUse(bs: seq<Block>, b: Block) {
    b in bs && !b.hole
  }

  /** Alloc puts one block into use. */
  lemma InUseAfterAlloc(bs: seq<Block>, k: nat, n: nat, b: Block)
    requires k < |bs| && bs[k].hole && n <= bs[k].size
    ensures InUse(AfterAlloc(bs, k, n), b) <==> InUse(bs, b) || b == Carved(bs[k], n)[0]
  {
    var c, t := Carved(bs[k], n), AfterAlloc(bs, k, n);
    AllocatedBlock(bs, k, n);
    if InUse(bs, b) {
      var i :| 0 <= i < |bs| && bs[i] == b;
      assert t[if i < k then i else i - 1 + |c|] == b;
    }
  }

  /** Extending the heap puts none. */
  lemma InUseGrown(bs: seq<Block>, hi: nat, hi': nat, b: Block)
    requires hi <= hi'
    ensures InUse(Grown(bs, hi, hi'), b) <==> InUse(bs, b)
  {
    var t := Grown(bs, hi, hi');
    if InUse(bs, b) {
      var i :| 0 <= i < |bs| && bs[i] == b;
      assert t[i] == b;
    }
  }

  /** Free takes one block out of use. */
  lemma InUseAfterFree(v: Variant, m: seq<byte>, lo: nat, hi: nat, bs: seq<Block>, k: nat, b: Block)
    requires Tiles(m, lo, hi, bs) && k < |bs| && !bs[k].hole && lo <= FreedHole(bs, k).addr
    ensures InUse(AfterFree(v, bs, k, lo), b) <==> InUse(bs, b) && b != bs[k]
  {
    var l, r, t := LeftPart(bs, k), RightPart(bs, k), AfterFree(v, bs, k, lo);
    assert !b.hole ==> (b in t <==> b in l || b in r);
    if InUse(bs, b) && b != bs[k] {
      var i :| 0 <= i < |bs| && bs[i] == b;
      if i < k {
        FreedLeft(m, lo, hi, bs, k, i);
      } else {
        FreedRight(m, lo, hi, bs, k, i);
      }
    } else if InUse(t, b) {
      if b in l {
        var i :| 0 <= i < |l| && l[i] == b;
        assert b == bs[i];
        TilesAt(m, lo, hi, bs, i);
        TilesApart(m, lo, hi, bs, i, k);
      } else {
        var i :| 0 <= i < |r| && r[i] == b;
        var j := if StartsInUse(bs[k + 1..]) then i + k + 1 else i + k + 2;
        assert b == bs[j];
        TilesAt(m, lo, hi, bs, k);
        TilesApart(m, lo, hi, bs, k, j);
      }
    }
  }

  /** A heap between two calls. */
  datatype Image = Image(mem: seq<byte>, end: nat, index: multiset<nat>, blocks: seq<Block>)

  datatype Request = Malloc(size: nat, p: nat) | Free(p: nat)

  predicate Good(lo: nat, h: Image) {
    HeapIs(h.mem, lo, h.end, h.index, h.blocks)
  }

  /** The blocks that alloc cuts from: those there are, or those there are after an extension. */
  predicate GrownOrNot(h: Image, h': Image, bs: seq<Block>) {
    bs == h.blocks || (h.end <= h'.end && bs == Grown(h.blocks, h.end, h'.end))
  }

  ghost predicate CutAt(bs: seq<Block>, k: int, bs': seq<Block>, size: nat, p: nat) {
    0 <= k < |bs| && AllocatedAt(bs, bs', k, size + OVERHEAD, p)
  }

  /** What the contracts of alloc and free, with the safety conditions, promise about one successful call. */
  ghost predicate Step(v: Variant, lo: nat, h: Image, q: Request, h': Image) {
    && Good(lo, h) && Good(lo, h')
    && match q {
      case Malloc(size, p) =>
        && LiveKept(h.mem, h'.mem, h.blocks, h'.blocks)
        && exists bs, k :: GrownOrNot(h, h', bs) && CutAt(bs, k, h'.blocks, size, p)
      case Free(p) => exists k :: 0 <= k < |h.blocks| && FreedAt(v, lo, h, k, p, h')
    }
  }

  ghost predicate FreedAt(v: Variant, lo: nat, h: Image, k: nat, p: nat, h': Image)
    requires k < |h.blocks|
  {
    && !h.blocks[k].hole && p == h.blocks[k].addr + HEADER && FreeSafe(v, h.blocks, k, lo)
    && h'.blocks == AfterFree(v, h.blocks, k, lo)
    && LiveKeptBut(h.mem, h'.mem, h.blocks, h'.blocks, h.blocks[k])
  }

  /** The requests qs lead through the heaps hs. */
  ghost predicate Run(v: Variant, lo: nat, hs: seq<Image>, qs: seq<Request>) {
    |hs| == |qs| + 1 && forall i :: 0 <= i < |qs| ==> Step(v, lo, hs[i], qs[i], hs[i + 1])
  }

  function Entered(given: map<nat, nat>, q: Request): map<nat, nat> {
    match q
    case Malloc(size, p) => given[p := size]
    case Free(p) => given - {p}
  }

  /** What the callers have been given and have not yet freed: payload addresses and requested sizes. */
  function Outstanding(qs: seq<Request>): map<nat, nat> {
    if qs == [] then map[]
    else
      Entered(Outstanding(qs[..|qs| - 1]), qs[|qs| - 1])
  }

  function Payload(b: Block): nat {
    b.addr + HEADER
  }

  /** The payload at p is that of a block in use with room for size bytes. */
  ghost predicate Held(bs: seq<Block>, p: nat, size: nat) {
    exists b :: InUse(bs, b) && Payload(b) == p && size + OVERHEAD <= b.size
  }

  ghost predicate AllHeld(bs: seq<Block>, given: map<nat, nat>) {
    forall p :: p in given ==> Held(bs, p, given[p])
  }

  ghost predicate AllGiven(bs: seq<Block>, given: map<nat, nat>) {
    forall b :: InUse(bs, b) ==> Payload(b) in given
  }

  ghost predicate Added(bs: seq<Block>, bs': seq<Block>, x: Block) {
    && (forall b :: InUse(bs', b) <==> InUse(bs, b) || b == x)
    && (forall b :: InUse(bs, b) ==> Payload(b) != Payload(x))
  }

  lemma GivenAdded(bs: seq<Block>, bs': seq<Block>, x: Block, given: map<nat, nat>, size: nat)
    requires AllGiven(bs, given) && Added(bs, bs', x)
    ensures AllGiven(bs', given[Payload(x) := size])
  {
  }

  lemma HeldAdded(bs: seq<Block>, bs': seq<Block>, x: Block, given: map<nat, nat>, size: nat)
    requires AllHeld(bs, given) && Added(bs, bs', x) && size + OVERHEAD <= x.size
    ensures AllHeld(bs', given[Payload(x) := size]) && Payload(x) !in given
  {
    var given' := given[Payload(x) := size];
    assert Payload(x) in given ==> Held(bs, Payload(x), given[Payload(x)]);
    forall p | p in given' ensures Held(bs', p, given'[p]) {
      if p == Payload(x) {
        assert InUse(bs', x);
      } else {
        var b :| InUse(bs, b) && Payload(b) == p && given[p] + OVERHEAD <= b.size;
        assert InUse(bs', b);
      }
    }
  }

  lemma GivenRemoved(bs: seq<Block>, bs': seq<Block>, x: Block, given: map<nat, nat>)
    requires AllGiven(bs, given) && Added(bs', bs, x)
    ensures AllGiven(bs', given - {Payload(x)}) && Payload(x) in given
  {
    assert InUse(bs, x);
  }

  lemma HeldRemoved(bs: seq<Block>, bs': seq<Block>, x: Block, given: map<nat, nat>)
    requires AllHeld(bs, given) && Added(bs', bs, x)
    ensures AllHeld(bs', given - {Payload(x)})
  {
    var given' := given - {Payload(x)};
    forall p | p in given' ensures Held(bs', p, given'[p]) {
      var b :| InUse(bs, b) && Payload(b) == p && given[p] + OVERHEAD <= b.size;
      assert InUse(bs', b);
    }
  }

  /** Blocks of a tiling are apart. */
  lemma BlocksApart(m: seq<byte>, lo: nat, hi: nat, bs: seq<Block>, b: Block, c: Block)
    requires Tiles(m, lo, hi, bs) && b in bs && c in bs
    ensures b == c || b.End() <= c.addr || c.End() <= b.addr
    ensures lo <= b.addr && b.End() <= hi && OVERHEAD <= b.size
  {
    var i :| 0 <= i < |bs| && bs[i] == b;
    var j :| 0 <= j < |bs| && bs[j] == c;
    TilesAt(m, lo, hi, bs, i);
    if i < j {
      TilesApart(m, lo, hi, bs, i, j);
    } else if j < i {
      TilesApart(m, lo, hi, bs, j, i);
    }
  }

  /** The block cut from a hole was not in use before. */
  lemma NotInUse(h: Image, h': Image, lo: nat, bs: seq<Block>, k: nat, n: nat)
    requires Good(lo, h) && k < |bs| && bs[k].hole && n <= bs[k].size && OVERHEAD <= n
    requires GrownOrNot(h, h', bs)
    ensures !InUse(h.blocks, Carved(bs[k], n)[0])
  {
    var new_ := Carved(bs[k], n)[0];
    if InUse(h.blocks, new_) {
      BlocksApart(h.mem, lo, h.end, h.blocks, new_, new_);
      if k < |h.blocks| {
        TilesAt(h.mem, lo, h.end, h.blocks, k);
        BlocksApart(h.mem, lo, h.end, h.blocks, h.blocks[k], new_);
      }
    }
  }

  lemma CutAdds(lo: nat, h: Image, h': Image, bs: seq<Block>, k: nat, n: nat, p: nat)
    requires Good(lo, h) && Good(lo, h') && k < |bs| && OVERHEAD <= n && AllocatedAt(bs, h'.blocks, k, n, p)
    requires GrownOrNot(h, h', bs)
    ensures var x := Carved(bs[k], n)[0]; Added(h.blocks, h'.blocks, x) && Payload(x) == p && n <= x.size
  {
    var x := Carved(bs[k], n)[0];
    NotInUse(h, h', lo, bs, k, n);
    forall b ensures InUse(h'.blocks, b) <==> InUse(h.blocks, b) || b == x {
      InUseAfterAlloc(bs, k, n, b);
      if bs != h.blocks {
        InUseGrown(h.blocks, h.end, h'.end, b);
      }
    }
    forall b | InUse(h.blocks, b) ensures Payload(b) != Payload(x) {
      assert InUse(h'.blocks, b) && InUse(h'.blocks, x);
      BlocksApart(h'.mem, lo, h'.end, h'.blocks, b, x);
      BlocksApart(h'.mem, lo, h'.end, h'.blocks, x, b);
    }
  }

  lemma MallocAdds(v: Variant, lo: nat, h: Image, size: nat, p: nat, h': Image) returns (x: Block)
    requires Step(v, lo, h, Malloc(size, p), h')
    ensures Added(h.blocks, h'.blocks, x) && Payload(x) == p && size + OVERHEAD <= x.size
  {
    var bs, k :| GrownOrNot(h, h', bs) && CutAt(bs, k, h'.blocks, size, p);
    CutAdds(lo, h, h', bs, k, size + OVERHEAD, p);
    x := Carved(bs[k], size + OVERHEAD)[0];
  }

  lemma FreedTakes(v: Variant, m: seq<byte>, lo: nat, hi: nat, bs: seq<Block>, k: nat)
    requires Tiles(m, lo, hi, bs) && k < |bs| && !bs[k].hole && lo <= FreedHole(bs, k).addr
    ensures Added(AfterFree(v, bs, k, lo), bs, bs[k])
  {
    var x, t := bs[k], AfterFree(v, bs, k, lo);
    assert InUse(bs, x);
    forall b ensures InUse(t, b) <==> InUse(bs, b) && b != x {
      InUseAfterFree(v, m, lo, hi, bs, k, b);
    }
    forall b | InUse(t, b) ensures Payload(b) != Payload(x) {
      assert InUse(bs, b);
      BlocksApart(m, lo, hi, bs, x, b);
      BlocksApart(m, lo, hi, bs, b, x);
    }
  }

  lemma FreeRemoves(v: Variant, lo: nat, h: Image, p: nat, h': Image) returns (x: Block)
    requires Step(v, lo, h, Free(p), h')
    ensures Added(h'.blocks, h.blocks, x) && Payload(x) == p
  {
    var k :| 0 <= k < |h.blocks| && FreedAt(v, lo, h, k, p, h');
    FreedTakes(v, h.mem, lo, h.end, h.blocks, k);
    x := h.blocks[k];
  }

  /** Over every run from a heap with nothing in use, the blocks in use are exactly those that were allocated
      and not freed since, each at the address that was handed out and at least as large as requested. */
  lemma {:induction false} Ledger(v: Variant, lo: nat, hs: seq<Image>, qs: seq<Request>)
    requires Run(v, lo, hs, qs) && forall b :: !InUse(hs[0].blocks, b)
    ensures AllHeld(hs[|qs|].blocks, Outstanding(qs)) && AllGiven(hs[|qs|].blocks, Outstanding(qs))
    decreases |qs|
  {
    if qs != [] {
      var n := |qs| - 1;
      Ledger(v, lo, hs[..n + 1], qs[..n]);
      var given := Outstanding(qs[..n]);
      assert Step(v, lo, hs[n], qs[n], hs[n + 1]);
      LedgerStep(v, lo, hs[n], qs[n], hs[n + 1], given);
    }
  }

  /** No address is handed out twice, and only what was handed out can be freed. */
  lemma LedgerStep(v: Variant, lo: nat, h: Image, q: Request, h': Image, given: map<nat, nat>)
    requires Step(v, lo, h, q, h') && AllHeld(h.blocks, given) && AllGiven(h.blocks, given)
    ensures AllHeld(h'.blocks, Entered(given, q)) && AllGiven(h'.blocks, Entered(given, q))
    ensures q.p in given <==> q.Free?
  {
    match q
    case Malloc(size, p) =>
      var x := MallocAdds(v, lo, h, size, p, h');
      GivenAdded(h.blocks, h'.blocks, x, given, size);
      HeldAdded(h.blocks, h'.blocks, x, given, size);
    case Free(p) =>
      var x := FreeRemoves(v, lo, h, p, h');
      GivenRemoved(h.blocks, h'.blocks, x, given);
      HeldRemoved(h.blocks, h'.blocks, x, given);
  }

  /** What callers hold at any time lies in the heap and does not overlap. */
  lemma HeldApart(v: Variant, lo: nat, hs: seq<Image>, qs: seq<Request>, p: nat, q: nat)
    requires Run(v, lo, hs, qs) && qs != [] && forall b :: !InUse(hs[0].blocks, b)
    requires p in Outstanding(qs) && q in Outstanding(qs) && p != q
    ensures lo + HEADER <= p && p + Outstanding(qs)[p] + FOOTER <= hs[|qs|].end
    ensures p + Outstanding(qs)[p] + OVERHEAD <= q || q + Outstanding(qs)[q] + OVERHEAD <= p
  {
    Ledger(v, lo, hs, qs);
    assert Step(v, lo, hs[|qs| - 1], qs[|qs| - 1], hs[|qs|]);
    TwoHeld(hs[|qs|], lo, p, Outstanding(qs)[p], q, Outstanding(qs)[q]);
  }

  lemma TwoHeld(h: Image, lo: nat, p: nat, m: nat, q: nat, n: nat)
    requires Good(lo, h) && Held(h.blocks, p, m) && Held(h.blocks, q, n) && p != q
    ensures lo + HEADER <= p && p + m + FOOTER <= h.end
    ensures p + m + OVERHEAD <= q || q + n + OVERHEAD <= p
  {
    var b :| InUse(h.blocks, b) && Payload(b) == p && m + OVERHEAD <= b.size;
    var c :| InUse(h.blocks, c) && Payload(c) == q && n + OVERHEAD <= c.size;
    BlocksApart(h.mem, lo, h.end, h.blocks, b, c);
  }

  /** A block that is in use and is not freed keeps every byte, whatever else is allocated and freed. */
  lemma {:induction false} HeldBytesStay(v: Variant, lo: nat, hs: seq<Image>, qs: seq<Request>, b: Block)
    requires Run(v, lo, hs, qs) && InUse(hs[0].blocks, b)
    requires Good(lo, hs[0]) && Free(Payload(b)) !in qs
    ensures InUse(hs[|qs|].blocks, b) && SameOn(hs[0].mem, hs[|qs|].mem, b.addr, b.End())
    decreases |qs|
  {
    if qs == [] {
      var i :| 0 <= i < |hs[0].blocks| && hs[0].blocks[i] == b;
      TilesAt(hs[0].mem, lo, hs[0].end, hs[0].blocks, i);
    } else {
      var n := |qs| - 1;
      HeldBytesStay(v, lo, hs[..n + 1], qs[..n], b);
      assert Step(v, lo, hs[n], qs[n], hs[n + 1]) && qs[n] in qs;
      KeptByStep(v, lo, hs[n], qs[n], hs[n + 1], b);
    }
  }

  lemma KeptByStep(v: Variant, lo: nat, h: Image, q: Request, h': Image, b: Block)
    requires Step(v, lo, h, q, h') && InUse(h.blocks, b) && q != Free(Payload(b))
    ensures InUse(h'.blocks, b) && SameOn(h.mem, h'.mem, b.addr, b.End())
  {
    if q.Free? {
      var k :| 0 <= k < |h.blocks| && FreedAt(v, lo, h, k, q.p, h');
      assert b != h.blocks[k];
    }
  }
}
