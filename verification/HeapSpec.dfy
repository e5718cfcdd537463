/** What alloc, free, expand and contract of cpu/kheap.c do to the blocks of the heap, as functions on
    sequences of blocks, and when the code as written keeps the heap well-formed. */
module HeapSpec {
  import opened Machine
  import opened HeapMemory
  import opened HeapTiling
  import opened HeapMerging
  import opened OrderedArray

  const HEAP_MIN_SIZE: nat := 0x70000
  const HEAP_INDEX_SIZE: nat := 0x20000

  /** What alloc comes to: the kernel may stop at an assertion or by a page fault. */
  datatype Allocation = Allocated(p: nat) | Panicked | Faulted

  /** How a part of alloc or free ends. In a stray case the code goes on with what it reads from physical frame 0. */
  datatype Outcome = Done | Panic | Fault | Stray

  /** The size field of the header at a, for any address. */
  function SizeAt(m: seq<byte>, a: nat): nat {
    if a + HEADER <= |m| then Word(m, a + 8) else 0
  }

  /** header_t_less_than: holes are ordered by the sizes that their headers hold at the moment. */
  function BySize(m: seq<byte>): Order {
    (a: nat, b: nat) => SizeAt(m, a) < SizeAt(m, b)
  }

  lemma BySizeStrictWeak(m: seq<byte>)
    ensures StrictWeak(BySize(m))
  {
  }

  /** new_size in alloc wraps around to less than a header and a footer exactly for the 20 largest sizes. */
  lemma RequestWraps(size: nat)
    requires size < WORD
    ensures Wrap(size + OVERHEAD) < OVERHEAD <==> size >= WORD - OVERHEAD
  {
    if size >= WORD - OVERHEAD {
      assert (size + OVERHEAD) % WORD == size + OVERHEAD - WORD;
    }
  }

  /** The two assertions of expand let a request for n bytes pass although the maximal address does not allow it
      exactly if the length does not wrap around but the new end does. A length that wraps is caught. */
  lemma LimitWraps(v: Variant, lo: nat, hi: nat, max: nat, n: nat)
    requires lo <= hi <= max < WORD && 0 < n < WORD
    ensures var length := Wrap(hi - lo + n);
      var passed := hi - lo < length && Wrap(lo + Wrap(Rounded(v, length))) <= max;
      passed && lo + Rounded(v, hi - lo + n) > max <==> hi - lo + n < WORD <= lo + Rounded(v, hi - lo + n)
  {
    if hi - lo + n >= WORD {
      assert Wrap(hi - lo + n) == hi - lo + n - WORD;
    } else {
      var r := Rounded(v, hi - lo + n);
      RoundedFits(v, hi - lo + n);
      if r == WORD {
        assert Wrap(r) == 0;
      } else if WORD <= lo + r {
        assert Wrap(lo + r) == lo + r - WORD;
      }
    }
  }

  lemma RoundedFits(v: Variant, size: nat)
    requires size < WORD
    ensures Rounded(v, size) <= WORD
  {
    assert size / PAGE < WORD / PAGE;
  }

  /** What a hole of size s turns into when n bytes of it are allocated: a rest that could not hold a
      header and a footer is given away with the block. */
  function Carved(b: Block, n: nat): seq<Block>
    requires n <= b.size
  {
    if b.size - n < OVERHEAD then [Block(b.addr, b.size, false)]
    else [Block(b.addr, n, false), Block(b.addr + n, b.size - n, true)]
  }

  /** The blocks after n bytes have been allocated from the hole bs[k]. */
  function AfterAlloc(bs: seq<Block>, k: nat, n: nat): seq<Block>
    requires k < |bs| && n <= bs[k].size
  {
    bs[..k] + Carved(bs[k], n) + bs[k + 1..]
  }

  /** The index after that: the hole leaves it, and what is left of the hole is inserted anew. */
  function CarvedIndex(s: seq<nat>, i: nat, b: Block, n: nat, less: Order): seq<nat>
    requires i < |s| && n <= b.size
  {
    if |Carved(b, n)| == 1 then Removed(s, i) else Inserted(Removed(s, i), b.addr + n, less)
  }

  /** The payload at p was cut from some hole. */
  ghost predicate CutFromHole(bs: seq<Block>, bs': seq<Block>, n: nat, p: nat) {
    exists k :: 0 <= k < |bs| && AllocatedAt(bs, bs', k, n, p)
  }

  lemma CutHere(bs: seq<Block>, bs': seq<Block>, k: nat, n: nat, p: nat)
    requires k < |bs| && AllocatedAt(bs, bs', k, n, p)
    ensures CutFromHole(bs, bs', n, p)
  {
  }

  lemma CarvedHoles(b: Block, n: nat)
    requires n <= b.size
    ensures Holes(Carved(b, n)) == if |Carved(b, n)| == 1 then multiset{} else multiset{b.addr + n}
  {
    var c := Carved(b, n);
    if |c| == 2 {
      assert c == [c[0]] + [c[1]];
      HolesJoin([c[0]], [c[1]]);
    }
  }

  /** Some hole of bs holds n bytes. */
  ghost predicate Fits(bs: seq<Block>, n: nat) {
    exists b :: b in bs && b.hole && b.size >= n
  }

  /** The payload at p has been allocated from the hole bs[k], which gave bs'. */
  ghost predicate AllocatedAt(bs: seq<Block>, bs': seq<Block>, k: nat, n: nat, p: nat)
    requires k < |bs|
  {
    bs[k].hole && n <= bs[k].size && p == bs[k].addr + HEADER && bs' == AfterAlloc(bs, k, n)
  }

  lemma CarvedIndexItems(s: seq<nat>, i: nat, b: Block, n: nat, less: Order)
    requires i < |s| && s[i] == b.addr && n <= b.size
    ensures multiset(CarvedIndex(s, i, b, n, less)) + multiset{b.addr} == multiset(s) + Holes(Carved(b, n))
  {
    var t: seq<nat>, x: nat, a: nat := Removed(s, i), b.addr + n, b.addr;
    CarvedHoles(b, n);
    RemovedItems(s, i);
    if b.size - n < OVERHEAD {
      assert CarvedIndex(s, i, b, n, less) == t;
      assert multiset(t) + multiset{a} == multiset(s) + Holes(Carved(b, n));
    } else {
      assert CarvedIndex(s, i, b, n, less) == Inserted(t, x, less);
      InsertedItems(t, x, less);
      Exchanged(multiset(s), multiset(t), multiset{a}, multiset{x});
      assert Holes(Carved(b, n)) == multiset{x};
    }
  }

  lemma Exchanged(s: multiset<nat>, t: multiset<nat>, a: multiset<nat>, x: multiset<nat>)
    requires s == t + a
    ensures (t + x) + a == s + x
  {
  }

  lemma CarvedCoalesced(bs: seq<Block>, k: nat, n: nat)
    requires Coalesced(bs) && k < |bs| && bs[k].hole && n <= bs[k].size
    ensures Coalesced(AfterAlloc(bs, k, n))
  {
    var c, t := Carved(bs[k], n), AfterAlloc(bs, k, n);
    CoalescedPairs(bs);
    CoalescedPairs(t);
    forall i | 0 <= i < |t| - 1 ensures !(t[i].hole && t[i + 1].hole) {
      if i + 1 < k {
        assert t[i] == bs[i] && t[i + 1] == bs[i + 1];
      } else if i + 1 == k || i + 1 < k + |c| {
      } else {
        var j := i + 1 - |c| + 1;
        assert t[i + 1] == bs[j];
        assert i >= k + |c| ==> t[i] == bs[j - 1];
        assert bs[j - 1].hole && bs[j].hole ==> false;
      }
    }
  }

  /** Every used block of bs is still one of bs', and none of its bytes has changed. */
  ghost predicate LiveKept(m: seq<byte>, m': seq<byte>, bs: seq<Block>, bs': seq<Block>) {
    forall b :: b in bs && !b.hole ==> b in bs' && SameOn(m, m', b.addr, b.End())
  }

  lemma LiveKeptTwice(m: seq<byte>, m': seq<byte>, m'': seq<byte>, bs: seq<Block>, bs': seq<Block>, bs'': seq<Block>)
    requires LiveKept(m, m', bs, bs') && LiveKept(m', m'', bs', bs'')
    ensures LiveKept(m, m'', bs, bs'')
  {
  }

  lemma LiveUnchanged(m: seq<byte>, lo: nat, hi: nat, bs: seq<Block>)
    requires Tiles(m, lo, hi, bs)
    ensures LiveKept(m, m, bs, bs)
  {
    forall b | b in bs ensures b.End() <= |m| {
      var i :| 0 <= i < |bs| && bs[i] == b;
      TilesAt(m, lo, hi, bs, i);
    }
  }

  /** Changes inside a hole do not touch any used block. */
  lemma LiveOutside(m: seq<byte>, m': seq<byte>, lo: nat, hi: nat, bs: seq<Block>, k: nat, x: seq<Block>)
    requires Tiles(m, lo, hi, bs) && k < |bs| && bs[k].hole
    requires SameOutside(m, m', bs[k].addr, bs[k].End())
    ensures LiveKept(m, m', bs, bs[..k] + x + bs[k + 1..])
  {
    var t := bs[..k] + x + bs[k + 1..];
    forall b | b in bs && !b.hole ensures b in t && SameOn(m, m', b.addr, b.End()) {
      var i :| 0 <= i < |bs| && bs[i] == b;
      TilesAt(m, lo, hi, bs, i);
      if i < k {
        TilesApart(m, lo, hi, bs, i, k);
        assert t[i] == b;
      } else {
        TilesApart(m, lo, hi, bs, k, i);
        assert t[i - 1 + |x|] == b;
      }
    }
  }

  /** The blocks in use after an allocation: those in use before, and the new one. */
  lemma AllocatedBlock(bs: seq<Block>, k: nat, n: nat)
    requires k < |bs| && bs[k].hole && n <= bs[k].size
    ensures var t, new_ := AfterAlloc(bs, k, n), Carved(bs[k], n)[0];
      && new_ in t && !new_.hole && new_.addr == bs[k].addr && n <= new_.size < n + OVERHEAD
      && forall b :: b in t && !b.hole ==> b in bs || b == new_
  {
    var t, c := AfterAlloc(bs, k, n), Carved(bs[k], n);
    assert t[k] == c[0];
    forall b | b in t && !b.hole ensures b in bs || b == c[0] {
      var i :| 0 <= i < |t| && t[i] == b;
      assert i < k ==> b == bs[i];
      assert k + |c| <= i ==> b == bs[i - |c| + 1];
    }
  }

  /** Allocating from a hole of a well-formed heap gives a well-formed heap again and leaves the blocks in
      use alone. */
  lemma CarveKeeps(m: seq<byte>, m': seq<byte>, lo: nat, hi: nat, s: seq<nat>, s': seq<nat>, i: nat,
    bs: seq<Block>, k: nat, n: nat)
    requires HeapIs(m, lo, hi, multiset(s), bs) && k < |bs| && bs[k].hole && n <= bs[k].size
    requires i < |s| && s[i] == bs[k].addr
    requires SameOutside(m, m', bs[k].addr, bs[k].End())
    requires Tiles(m', bs[k].addr, bs[k].End(), Carved(bs[k], n)) && Footed(m', Carved(bs[k], n))
    requires s' == CarvedIndex(s, i, bs[k], n, BySize(m'))
    ensures HeapIs(m', lo, hi, multiset(s'), AfterAlloc(bs, k, n))
    ensures LiveKept(m, m', bs, AfterAlloc(bs, k, n))
  {
    CarvedCoalesced(bs, k, n);
    CarvedIndexItems(s, i, bs[k], n, BySize(m'));
    assert Holes([bs[k]]) == multiset{bs[k].addr};
    SurgeryKeeps(m, m', lo, hi, multiset(s), multiset(s'), bs, k, Carved(bs[k], n));
    LiveOutside(m, m', lo, hi, bs, k, Carved(bs[k], n));
  }

  // ---------------------------------------------------------------------------------------------
  // Growing

  /** The length that expand rounds a requested length to. The parentheses missing from its test make
      the code as written round odd lengths only. */
  function Rounded(v: Variant, size: nat): (r: nat)
    ensures size <= r <= size + PAGE
    ensures v.Intended? ==> r % PAGE == 0
  {
    if (match v case AsWritten => size % 2 == 1 case Intended => size % PAGE != 0) then size / PAGE * PAGE + PAGE
    else size
  }

  /** The length that a heap extended to at least the length asked for has. As written, an even length is left
      alone, and an odd one makes the heap end at the next page boundary; as intended, the length is the least
      multiple of a page that suffices. */
  predicate RoundsTo(v: Variant, asked: nat, length: nat) {
    match v
    case AsWritten =>
      if asked % 2 == 0 then length == asked else length % PAGE == 0 && asked < length <= asked + PAGE
    case Intended => length % PAGE == 0 && asked <= length < asked + PAGE
  }

  lemma RoundedExactly(v: Variant, asked: nat, length: nat)
    ensures length == Rounded(v, asked) <==> RoundsTo(v, asked, length)
  {
    var r := Rounded(v, asked);
    if r % PAGE == 0 && length % PAGE == 0 {
      OneMultiple(asked, r, length);
    }
  }

  /** Among PAGE numbers in a row there is one multiple of PAGE. */
  lemma OneMultiple(asked: nat, a: nat, b: nat)
    requires a % PAGE == 0 && b % PAGE == 0
    ensures asked < a <= asked + PAGE && asked < b <= asked + PAGE ==> a == b
    ensures asked <= a < asked + PAGE && asked <= b < asked + PAGE ==> a == b
  {
    assert a == a / PAGE * PAGE && b == b / PAGE * PAGE;
  }

  /** A length rounded to a page is the least that is a multiple of one and beyond the length asked for, or, as
      intended, not below it. */
  lemma RoundedLeast(v: Variant, asked: nat, m: nat)
    requires m % PAGE == 0
    requires match v case AsWritten => asked % 2 == 1 && asked < m case Intended => asked <= m
    ensures Rounded(v, asked) % PAGE == 0 && Rounded(v, asked) <= m
  {
    assert m == m / PAGE * PAGE;
  }

  lemma AlignedSum(a: nat, b: nat)
    requires a % PAGE == 0
    ensures (a + b) % PAGE == b % PAGE
  {
    var k := a / PAGE;
    assert a + b == PAGE * (k + b / PAGE) + b % PAGE;
  }

  /** When alloc may extend the heap without harm: the code as written enlarges the hole with the highest
      address, whether or not that hole reaches to the end of the heap. */
  predicate GrowSafe(v: Variant, bs: seq<Block>) {
    v.Intended? || Holes(bs) == multiset{} || (bs != [] && bs[|bs| - 1].hole)
  }

  /** The end of the hole with the highest address, or 0. */
  function HolesEnd(bs: seq<Block>): nat {
    if bs == [] then 0 else if bs[|bs| - 1].hole then bs[|bs| - 1].End() else HolesEnd(bs[..|bs| - 1])
  }

  lemma {:induction false} HolesEndAt(bs: seq<Block>, k: nat)
    requires k < |bs| && bs[k].hole && forall j :: k < j < |bs| ==> !bs[j].hole
    ensures HolesEnd(bs) == bs[k].End()
    decreases |bs|
  {
    if k < |bs| - 1 {
      HolesEndAt(bs[..|bs| - 1], k);
    }
  }

  /** The end of the hole that gets the room between the ends hi and hi'. */
  function RoomEnd(v: Variant, bs: seq<Block>, hi: nat, hi': nat): nat
    requires hi <= hi'
  {
    if v.Intended? || Holes(bs) == multiset{} then hi' else HolesEnd(bs) + (hi' - hi)
  }

  lemma RoomEndIs(v: Variant, m: seq<byte>, lo: nat, hi: nat, hi': nat, bs: seq<Block>, k: nat)
    requires Tiles(m, lo, hi, bs) && hi <= hi' && k < |bs| && bs[k].hole
    requires forall a :: a in Holes(bs) ==> a <= bs[k].addr
    requires v.Intended? ==> bs[k].End() == hi
    ensures RoomEnd(v, bs, hi, hi') == bs[k].End() + (hi' - hi) <= hi'
    ensures GrowSafe(v, bs) ==> RoomEnd(v, bs, hi, hi') == hi'
  {
    HolesHas(bs, k);
    TilesAt(m, lo, hi, bs, k);
    LastHole(m, lo, hi, bs, k);
    forall j | k < j < |bs| ensures !bs[j].hole {
      TilesApart(m, lo, hi, bs, k, j);
      TilesAt(m, lo, hi, bs, k);
      if bs[j].hole {
        HolesHas(bs, j);
      }
    }
    HolesEndAt(bs, k);
  }

  /** The blocks after the heap has been extended to hi. */
  function Grown(bs: seq<Block>, lo: nat, hi: nat): seq<Block>
    requires lo <= hi
  {
    if bs != [] && bs[|bs| - 1].hole then
      bs[..|bs| - 1] + [Block(bs[|bs| - 1].addr, bs[|bs| - 1].size + (hi - lo), true)]
    else bs + [Block(lo, hi - lo, true)]
  }

  lemma LiveGrown(m: seq<byte>, m': seq<byte>, lo: nat, hi: nat, hi': nat, bs: seq<Block>)
    requires Tiles(m, lo, hi, bs) && bs != [] && hi <= hi'
    requires SameOutside(m, m', if bs[|bs| - 1].hole then bs[|bs| - 1].addr else hi, hi')
    ensures LiveKept(m, m', bs, Grown(bs, hi, hi'))
  {
    var n, t := |bs| - 1, Grown(bs, hi, hi');
    forall b | b in bs && !b.hole ensures b in t && SameOn(m, m', b.addr, b.End()) {
      var i :| 0 <= i < |bs| && bs[i] == b;
      assert t[i] == b;
      TilesAt(m, lo, hi, bs, i);
      if i < n {
        TilesApart(m, lo, hi, bs, i, n);
      }
    }
  }

  /** Enlarging the hole with the highest address leaves the sizes of the other holes alone. */
  lemma OtherSizes(m: seq<byte>, m': seq<byte>, lo: nat, hi: nat, hi': nat, index: multiset<nat>, bs: seq<Block>,
    k: nat)
    requires HeapIs(m, lo, hi, index, bs) && k < |bs| && bs[k].hole && hi <= hi'
    requires forall a :: a in Holes(bs) ==> a <= bs[k].addr
    requires SameOutside(m, m', bs[k].addr, hi')
    ensures forall a :: a in Holes(bs) && a != bs[k].addr ==> SizeAt(m', a) == SizeAt(m, a)
  {
    forall a | a in Holes(bs) && a != bs[k].addr ensures SizeAt(m', a) == SizeAt(m, a) {
      var i := HolesAt(bs, a);
      TilesAt(m, lo, hi, bs, i);
      if k < i {
        TilesApart(m, lo, hi, bs, k, i);
      } else {
        TilesApart(m, lo, hi, bs, i, k);
        BytesKept(m, m', a + 8, a + HEADER);
      }
    }
  }

  lemma NoHoles(s: seq<nat>, bs: seq<Block>)
    requires multiset(s) == Holes(bs) && s == []
    ensures bs == [] || !bs[|bs| - 1].hole
  {
    if bs != [] && bs[|bs| - 1].hole {
      HolesHas(bs, |bs| - 1);
    }
  }

  lemma GrownCoalesced(bs: seq<Block>, hi: nat, hi': nat)
    requires Coalesced(bs) && hi <= hi'
    ensures Coalesced(Grown(bs, hi, hi'))
  {
    var g := Grown(bs, hi, hi');
    CoalescedPairs(bs);
    CoalescedPairs(g);
    assert forall i :: 0 <= i < |g| - 1 ==> g[i] == bs[i];
  }

  /** A hole added behind a heap whose last block is in use. */
  lemma GrowFresh(m: seq<byte>, m': seq<byte>, lo: nat, hi: nat, hi': nat, index: multiset<nat>, bs: seq<Block>)
    requires HeapIs(m, lo, hi, index, bs) && bs != [] && !bs[|bs| - 1].hole && hi <= hi'
    requires SameOutside(m, m', hi, hi')
    requires var x := Block(hi, hi' - hi, true); IsBlock(m', x) && HasFooter(m', x, hi)
    ensures HeapIs(m', lo, hi', index + multiset{hi}, Grown(bs, hi, hi'))
    ensures LiveKept(m, m', bs, Grown(bs, hi, hi'))
  {
    LiveGrown(m, m', lo, hi, hi', bs);
    TilesBounds(m, lo, hi, bs);
    Extend(m, m', lo, hi, hi', bs, Block(hi, hi' - hi, true));
    GrownCoalesced(bs, hi, hi');
  }

  /** The last block, a hole, enlarged to the new end. */
  lemma GrowLast(m: seq<byte>, m': seq<byte>, lo: nat, hi: nat, hi': nat, index: multiset<nat>, bs: seq<Block>)
    requires HeapIs(m, lo, hi, index, bs) && bs != [] && bs[|bs| - 1].hole && hi <= hi'
    requires SameOutside(m, m', bs[|bs| - 1].addr, hi')
    requires var b := bs[|bs| - 1];
      var x := Block(b.addr, b.size + (hi' - hi), true); IsBlock(m', x) && HasFooter(m', x, b.addr)
    ensures HeapIs(m', lo, hi', index, Grown(bs, hi, hi'))
    ensures LiveKept(m, m', bs, Grown(bs, hi, hi'))
  {
    LiveGrown(m, m', lo, hi, hi', bs);
    var n := |bs| - 1;
    TilesAt(m, lo, hi, bs, n);
    var b, l := bs[n], bs[..n];
    TilesLast(m, lo, hi, bs);
    TakeApart(m, lo, hi, bs, n);
    OthersFooted(m, lo, hi, bs, n);
    Extend(m, m', lo, b.addr, hi', l, Block(b.addr, b.size + (hi' - hi), true));
    assert bs[n + 1..] == [] && Holes([b]) == multiset{b.addr};
    GrownCoalesced(bs, hi, hi');
  }

  lemma GrownFits(bs: seq<Block>, hi: nat, hi': nat, n: nat)
    requires hi + n <= hi'
    ensures Fits(Grown(bs, hi, hi'), n)
  {
    var g := Grown(bs, hi, hi');
    assert g[|g| - 1] in g;
  }

  /** If nothing fitted before, only the block that got the new room does now. */
  lemma GrownFitsOnly(bs: seq<Block>, hi: nat, hi': nat, n: nat)
    requires hi <= hi' && !Fits(bs, n)
    ensures var g := Grown(bs, hi, hi'); forall j :: 0 <= j < |g| - 1 && g[j].hole ==> g[j].size < n
  {
    var g := Grown(bs, hi, hi');
    forall j | 0 <= j < |g| - 1 && g[j].hole ensures g[j].size < n {
      assert bs[j] in bs;
    }
  }

  /** The block behind a hole that is not the last block is in use, and n bytes from the hole reach it. */
  lemma Overlapped(m: seq<byte>, lo: nat, hi: nat, bs: seq<Block>, k: nat, n: nat)
    requires Tiles(m, lo, hi, bs) && Coalesced(bs) && k < |bs| - 1 && bs[k].hole
    requires !Fits(bs, n)
    ensures var b := bs[k + 1];
      b in bs && !b.hole && b.addr == bs[k].End() && bs[k].addr + HEADER <= b.addr < bs[k].addr + n
  {
    CoalescedPairs(bs);
    TakeApart(m, lo, hi, bs, k);
    assert bs[k + 1..][0] == bs[k + 1];
  }

  /** What the search finds after hole k, which is not the last block, has been enlarged all the same: that hole,
      which now reaches over the block behind it. */
  lemma ReachesOver(m: seq<byte>, m': seq<byte>, lo: nat, hi: nat, hi': nat, s: seq<nat>, bs: seq<Block>, k: nat,
    n: nat)
    requires HeapIs(m, lo, hi, multiset(s), bs) && k < |bs| - 1 && bs[k].hole && hi + n <= hi'
    requires !Fits(bs, n) && forall a :: a in s ==> SizeAt(m, a) < n
    requires IsBlock(m', bs[k].(size := bs[k].size + (hi' - hi))) && bs[k].End() <= hi
    requires forall a :: a in s && a != bs[k].addr ==> SizeAt(m', a) == SizeAt(m, a)
    ensures exists a :: a in s && SizeAt(m', a) >= n
    ensures forall a :: a in s && SizeAt(m', a) >= n ==>
      && a == bs[k].addr && IsBlock(m', Block(a, SizeAt(m', a), true))
      && a + SizeAt(m', a) == bs[k].End() + (hi' - hi) <= hi'
      && exists b :: b in bs && !b.hole && a + HEADER <= b.addr < a + n
  {
    Overlapped(m, lo, hi, bs, k, n);
    HolesHas(bs, k);
    assert bs[k].addr in multiset(s) && SizeAt(m', bs[k].addr) == bs[k].size + (hi' - hi) >= n;
  }

  // ---------------------------------------------------------------------------------------------
  // Freeing

  /** The blocks to the left of the hole that freeing bs[k] makes. */
  function LeftPart(bs: seq<Block>, k: nat): seq<Block>
    requires k < |bs|
  {
    if EndsInUse(bs[..k]) then bs[..k] else bs[..k - 1]
  }

  function RightPart(bs: seq<Block>, k: nat): seq<Block>
    requires k < |bs|
  {
    if StartsInUse(bs[k + 1..]) then bs[k + 1..] else bs[k + 2..]
  }

  /** The hole itself: bs[k] with the holes on either side of it. */
  function FreedHole(bs: seq<Block>, k: nat): Block
    requires k < |bs|
  {
    var left := if EndsInUse(bs[..k]) then 0 else bs[k - 1].size;
    var right := if StartsInUse(bs[k + 1..]) then 0 else bs[k + 1].size;
    Block(if EndsInUse(bs[..k]) then bs[k].addr else bs[k - 1].addr, left + bs[k].size + right, true)
  }

  /** The length that contract leaves. The code as written masks the length with the one bit 0x1000. */
  function Contracted(v: Variant, size: nat): nat {
    var rounded :=
      match v
      case AsWritten => if size / PAGE % 2 == 1 then PAGE + PAGE else size
      case Intended => if size % PAGE == 0 then size else size / PAGE * PAGE + PAGE;
    if rounded < HEAP_MIN_SIZE then HEAP_MIN_SIZE else rounded
  }

  /** What that comes to. As written the mask keeps an even page number and makes an odd one vanish, and the minimal
      length is left of what vanishes; as intended the length is the least multiple of a page that is neither below
      the length asked for nor below the minimal one. */
  predicate ContractsTo(v: Variant, asked: nat, length: nat) {
    match v
    case AsWritten =>
      if asked >= HEAP_MIN_SIZE && asked / PAGE % 2 == 0 then length == asked else length == HEAP_MIN_SIZE
    case Intended =>
      && length % PAGE == 0 && asked <= length && HEAP_MIN_SIZE <= length
      && (length < asked + PAGE || length == HEAP_MIN_SIZE)
  }

  lemma ContractedExactly(v: Variant, asked: nat, length: nat)
    ensures length == Contracted(v, asked) <==> ContractsTo(v, asked, length)
  {
    if v.Intended? && length % PAGE == 0 {
      OneMultiple(asked, Contracted(v, asked), length);
    }
  }

  /** A last hole at a keeps room for a header and a footer when the heap now ends at hi, or it vanishes, which
      the code as written does not get right. */
  predicate LeavesRoom(v: Variant, a: nat, hi: nat) {
    a + OVERHEAD <= hi || (v.Intended? && hi == a)
  }

  /** When the heap may be contracted for a last hole at offset h. */
  predicate ShrinkSafe(v: Variant, h: nat) {
    LeavesRoom(v, h, Contracted(v, h))
  }

  lemma ContractedFits(v: Variant, h: nat, length: nat)
    requires h < length && HEAP_MIN_SIZE <= length && (v.Intended? ==> length % PAGE == 0)
    ensures Contracted(v, h) <= length
  {
    if v.Intended? && h % PAGE != 0 {
      var a, b := h / PAGE, length / PAGE;
      assert a * PAGE < b * PAGE;
    }
  }

  lemma ContractedAligned(v: Variant, lo: nat, size: nat)
    requires lo % PAGE == 0
    ensures HEAP_MIN_SIZE <= Contracted(v, size)
    ensures v.Intended? ==> (lo + Contracted(v, size)) % PAGE == 0 && Contracted(v, size) % PAGE == 0
  {
    AlignedSum(lo, Contracted(v, size));
  }

  /** A contraction that leaves the last hole in order ends at a page boundary. */
  lemma ContractedSafe(v: Variant, h: nat)
    requires ShrinkSafe(v, h)
    ensures Contracted(v, h) % PAGE == 0
  {
  }

  /** As intended the new end does not lie below the last hole. */
  lemma ContractedAbove(h: nat)
    ensures h <= Contracted(Intended, h)
  {
  }

  /** The merged hole before it is joined to the right. */
  function LeftHole(bs: seq<Block>, k: nat): Block
    requires k < |bs|
  {
    if EndsInUse(bs[..k]) then bs[k].(hole := true) else Block(bs[k - 1].addr, bs[k - 1].size + bs[k].size, true)
  }

  lemma LeftUnified(bs: seq<Block>, k: nat, l: seq<Block>, cur: Block)
    requires k < |bs| && LeftMerged(bs[..k], bs[k].(hole := true), l, cur)
    ensures l == LeftPart(bs, k) && cur == LeftHole(bs, k)
  {
    if !EndsInUse(bs[..k]) {
      assert bs[..k][k - 1] == bs[k - 1] && bs[..k][..k - 1] == bs[..k - 1];
    }
  }

  /** The header that the footer of the merged hole points to. */
  function Back(v: Variant, bs: seq<Block>, k: nat): nat
    requires k < |bs|
  {
    if v.Intended? || StartsInUse(bs[k + 1..]) then FreedHole(bs, k).addr else bs[k + 1].addr
  }

  /** What the unification of cur with the blocks r to the right of it gives. */
  predicate RightMerged(v: Variant, cur: Block, r: seq<Block>, cur': Block, r': seq<Block>, back: nat) {
    if StartsInUse(r) then cur' == cur && r' == r && back == cur.addr
    else
      && r' == r[1..] && cur' == Block(cur.addr, cur.size + r[0].size, true)
      && back == if v.Intended? then cur.addr else r[0].addr
  }

  lemma RightUnified(v: Variant, bs: seq<Block>, k: nat, cur: Block, cur': Block, r: seq<Block>, back: nat)
    requires k < |bs| && cur == LeftHole(bs, k) && RightMerged(v, cur, bs[k + 1..], cur', r, back)
    ensures r == RightPart(bs, k) && cur' == FreedHole(bs, k) && back == Back(v, bs, k)
  {
    if !StartsInUse(bs[k + 1..]) {
      assert bs[k + 1..][0] == bs[k + 1] && bs[k + 1..][1..] == bs[k + 2..];
    }
  }

  /** The merge takes in every neighbouring hole, so that the hole made is coalesced again. */
  lemma FreedSides(bs: seq<Block>, k: nat)
    requires Coalesced(bs) && k < |bs|
    ensures var l, r := LeftPart(bs, k), RightPart(bs, k);
      Coalesced(l) && EndsInUse(l) && Coalesced(r) && StartsInUse(r)
  {
    CoalescedSides(bs, k);
    if !EndsInUse(bs[..k]) {
      assert bs[..k][k - 1] == bs[k - 1];
      CoalescedSides(bs, k - 1);
    }
    if !StartsInUse(bs[k + 1..]) {
      assert bs[k + 1..][0] == bs[k + 1];
      CoalescedSides(bs, k + 1);
    }
  }

  /** Every used block other than b is still one of bs', and none of its bytes has changed. */
  ghost predicate LiveKeptBut(m: seq<byte>, m': seq<byte>, bs: seq<Block>, bs': seq<Block>, freed: Block) {
    forall b :: b in bs && !b.hole && b != freed ==> b in bs' && SameOn(m, m', b.addr, b.End())
  }

  lemma FreedLeft(m: seq<byte>, lo: nat, hi: nat, bs: seq<Block>, k: nat, i: nat)
    requires Tiles(m, lo, hi, bs) && i < k < |bs| && !bs[i].hole
    ensures bs[i] in LeftPart(bs, k) && bs[i].End() <= FreedHole(bs, k).addr
  {
    if EndsInUse(bs[..k]) {
      TilesApart(m, lo, hi, bs, i, k);
      assert bs[i] == LeftPart(bs, k)[i];
    } else {
      assert bs[..k][k - 1] == bs[k - 1];
      TilesApart(m, lo, hi, bs, i, k - 1);
      assert bs[i] == LeftPart(bs, k)[i];
    }
  }

  lemma FreedRight(m: seq<byte>, lo: nat, hi: nat, bs: seq<Block>, k: nat, i: nat)
    requires Tiles(m, lo, hi, bs) && k < i < |bs| && !bs[i].hole
    ensures bs[i] in RightPart(bs, k) && FreedHole(bs, k).End() <= bs[i].addr
  {
    FreedExtent(m, lo, hi, bs, k);
    if StartsInUse(bs[k + 1..]) {
      TilesApart(m, lo, hi, bs, k, i);
      assert bs[i] == RightPart(bs, k)[i - k - 1];
    } else {
      assert bs[k + 1..][0] == bs[k + 1];
      TilesApart(m, lo, hi, bs, k + 1, i);
      assert bs[i] == RightPart(bs, k)[i - k - 2];
    }
  }

  /** The merged hole reaches from the start of the leftmost to the end of the rightmost of its blocks. */
  lemma FreedExtent(m: seq<byte>, lo: nat, hi: nat, bs: seq<Block>, k: nat)
    requires Tiles(m, lo, hi, bs) && k < |bs|
    ensures lo <= FreedHole(bs, k).addr
    ensures FreedHole(bs, k).End() == if StartsInUse(bs[k + 1..]) then bs[k].End() else bs[k + 1].End()
  {
    TakeApart(m, lo, hi, bs, k);
    TilesAt(m, lo, hi, bs, k);
    if !EndsInUse(bs[..k]) {
      assert bs[..k][k - 1] == bs[k - 1];
      TilesLast(m, lo, bs[k].addr, bs[..k]);
      TilesAt(m, lo, hi, bs, k - 1);
    }
    if !StartsInUse(bs[k + 1..]) {
      assert bs[k + 1..][0] == bs[k + 1];
    }
  }

  lemma FreedLive(m: seq<byte>, m': seq<byte>, lo: nat, hi: nat, bs: seq<Block>, k: nat, bs': seq<Block>)
    requires Tiles(m, lo, hi, bs) && k < |bs|
    requires SameOutside(m, m', FreedHole(bs, k).addr, FreedHole(bs, k).End())
    requires forall b :: b in LeftPart(bs, k) || b in RightPart(bs, k) ==> b in bs'
    ensures LiveKeptBut(m, m', bs, bs', bs[k])
  {
    forall b | b in bs && !b.hole && b != bs[k] ensures b in bs' && SameOn(m, m', b.addr, b.End()) {
      var i :| 0 <= i < |bs| && bs[i] == b;
      TilesAt(m, lo, hi, bs, i);
      if i < k {
        FreedLeft(m, lo, hi, bs, k, i);
      } else {
        FreedRight(m, lo, hi, bs, k, i);
      }
    }
  }

  /** The index after looking up an item and removing it if it is there. */
  lemma Dropped(s: seq<nat>, i: nat, target: nat, holes: multiset<nat>, a: nat, listed: bool)
    requires multiset(s) == holes + (if listed then multiset{a} else multiset{}) && a !in holes
    requires i <= |s| && (i < |s| ==> s[i] == target) && (i == |s| <==> target !in s)
    ensures var t := if i < |s| then Removed(s, i) else s;
      && (target == a ==> multiset(t) == holes)
      && (target != a && listed ==> a in multiset(t))
  {
    assert a in s <==> a in multiset(s);
    if i < |s| {
      RemovedItems(s, i);
      if target == a {
        SumsCancel(multiset(Removed(s, i)), multiset(s), multiset{a}, multiset{}, holes);
      }
    }
  }

  /** What the unsigned subtraction in free leaves of a last hole at address a. */
  lemma RestSize(start: nat, a: nat, oldLength: nat, newLength: nat)
    requires FOOTER <= start <= a < start + oldLength < WORD && FOOTER <= newLength <= oldLength
    ensures var size := start + oldLength - a;
      var rest := Wrap(size - (oldLength - newLength));
      && (a <= start + newLength ==> rest == start + newLength - a)
      && (start + newLength < a ==> 0 < rest && size < rest)
      && Wrap(a + rest - FOOTER) == start + newLength - FOOTER
  {
    if start + newLength < a {
      var d := a - (start + newLength);
      assert (WORD - d) % WORD == WORD - d;
      assert Wrap(-d) == WORD - d;
    }
  }

  /** For the code as written the condition is that the hole starts below the minimal length. */
  lemma ShrinkSafeAsWritten(h: nat)
    ensures ShrinkSafe(AsWritten, h) <==> h + OVERHEAD <= HEAP_MIN_SIZE
  {
  }

  /** When free keeps the heap well-formed. A merge with the hole on the right leaves that hole's footer
      pointing to a header that is gone; only a contraction writes it anew. */
  predicate FreeSafe(v: Variant, bs: seq<Block>, k: nat, lo: nat)
    requires k < |bs|
  {
    && lo <= FreedHole(bs, k).addr
    && (if RightPart(bs, k) == [] then ShrinkSafe(v, FreedHole(bs, k).addr - lo)
        else v.Intended? || StartsInUse(bs[k + 1..]))
  }

  /** The last hole cur, behind the blocks l, after the end of the heap has moved to hi. */
  function CutOffAt(l: seq<Block>, cur: Block, hi: nat): seq<Block> {
    if cur.addr < hi then l + [Block(cur.addr, hi - cur.addr, true)] + [] else l
  }

  /** The heap after the contraction is well-formed exactly if the last hole has room or is gone. */
  lemma CutVerdict(v: Variant, m: seq<byte>, lo: nat, hi: nat, index: multiset<nat>, l: seq<Block>, cur: Block)
    requires Coalesced(l) && EndsInUse(l)
    requires cur.addr + OVERHEAD <= hi ==> var b := Block(cur.addr, hi - cur.addr, true);
      Mid(m, lo, hi, index, l, b, [], true) && HasFooter(m, b, b.addr)
    requires v.Intended? && hi == cur.addr ==> HeapIs(m, lo, hi, index, l)
    requires !LeavesRoom(v, cur.addr, hi) ==> cur.addr in index
    ensures LeavesRoom(v, cur.addr, hi) <==> HeapIs(m, lo, hi, index, CutOffAt(l, cur, hi))
    ensures LeavesRoom(v, cur.addr, hi) <==> WellFormed(m, lo, hi, index)
  {
    if cur.addr + OVERHEAD <= hi {
      MergedKeeps(m, lo, hi, index, l, Block(cur.addr, hi - cur.addr, true), []);
    } else if !LeavesRoom(v, cur.addr, hi) {
      StrayEntry(m, lo, hi, index, cur.addr);
    }
  }

  /** The heap after a merge inside it is well-formed exactly if the footer names the right header. */
  lemma MergeVerdict(m: seq<byte>, lo: nat, hi: nat, index: multiset<nat>, l: seq<Block>, cur: Block, r: seq<Block>,
    back: nat)
    requires Mid(m, lo, hi, index, l, cur, r, true) && HasFooter(m, cur, back) && r != []
    requires Coalesced(l) && Coalesced(r) && EndsInUse(l) && StartsInUse(r)
    ensures back == cur.addr <==> HeapIs(m, lo, hi, index, l + [cur] + r)
    ensures back == cur.addr <==> WellFormed(m, lo, hi, index)
  {
    if back == cur.addr {
      MergedKeeps(m, lo, hi, index, l, cur, r);
    } else {
      WrongFooter(m, lo, hi, index, l, cur, r);
    }
  }

  /** The blocks once the merged hole cur, between l and r, has been dealt with and the heap ends at hi. */
  function Settled(l: seq<Block>, cur: Block, r: seq<Block>, hi: nat): seq<Block> {
    if r != [] then l + [cur] + r else CutOffAt(l, cur, hi)
  }

  /** The blocks after freeing bs[k]. */
  function AfterFree(v: Variant, bs: seq<Block>, k: nat, lo: nat): seq<Block>
    requires k < |bs| && lo <= FreedHole(bs, k).addr
  {
    Settled(LeftPart(bs, k), FreedHole(bs, k), RightPart(bs, k), lo + Contracted(v, FreedHole(bs, k).addr - lo))
  }

  /** Whether the last step of free goes well, given the header that the footer of the merged hole names. */
  predicate SettleSafe(v: Variant, cur: Block, r: seq<Block>, back: nat, hi: nat) {
    if r == [] then LeavesRoom(v, cur.addr, hi) else back == cur.addr
  }

  lemma SettleIsFree(v: Variant, m: seq<byte>, lo: nat, hi: nat, bs: seq<Block>, k: nat, hi': nat)
    requires Tiles(m, lo, hi, bs) && k < |bs| && lo <= FreedHole(bs, k).addr
    requires RightPart(bs, k) == [] ==> hi' == lo + Contracted(v, FreedHole(bs, k).addr - lo)
    ensures SettleSafe(v, FreedHole(bs, k), RightPart(bs, k), Back(v, bs, k), hi') <==> FreeSafe(v, bs, k, lo)
    ensures Settled(LeftPart(bs, k), FreedHole(bs, k), RightPart(bs, k), hi') == AfterFree(v, bs, k, lo)
  {
    if !StartsInUse(bs[k + 1..]) {
      TilesApart(m, lo, hi, bs, k, k + 1);
      if !EndsInUse(bs[..k]) {
        assert bs[..k][k - 1] == bs[k - 1];
        TilesApart(m, lo, hi, bs, k - 1, k);
      }
      TilesAt(m, lo, hi, bs, k);
    }
  }

  lemma Freed(m: seq<byte>, m': seq<byte>, lo: nat, hi: nat, bs: seq<Block>, k: nat, v: Variant)
    requires Tiles(m, lo, hi, bs) && k < |bs| && FOOTER <= lo <= FreedHole(bs, k).addr && lo <= |m|
    requires SameOutside(m, m', FreedHole(bs, k).addr, FreedHole(bs, k).End())
    ensures LiveKeptBut(m, m', bs, AfterFree(v, bs, k, lo), bs[k])
    ensures Word(m', lo - FOOTER) == Word(m, lo - FOOTER)
  {
    FreedLive(m, m', lo, hi, bs, k, AfterFree(v, bs, k, lo));
    BytesKept(m, m', lo - FOOTER, lo - FOOTER + 4);
  }
}
