/** How headers and footers tile the heap, as facts about a memory image.

    Blocks, used or free, follow one another without a gap from the start of the heap to its end; the
    free ones are the holes. All surgery on the heap replaces a few neighbouring blocks by others that
    cover the same bytes, so a tiling is handled as left part, middle and right part. */
module HeapTiling {
  import opened Machine
  import opened HeapMemory

  datatype Block = Block(addr: nat, size: nat, hole: bool) {
    function End(): nat { addr + size }
  }

  predicate IsBlock(m: seq<byte>, b: Block) {
    OVERHEAD <= b.size && b.End() <= |m| && HeaderIs(m, b.addr, b.hole, b.size)
  }

  predicate HasFooter(m: seq<byte>, b: Block, header: nat) {
    OVERHEAD <= b.size && FooterIs(m, b.End() - FOOTER, header)
  }

  /** Walking from one header to the next by the sizes in the headers visits the blocks of bs and ends
      exactly at hi. */
  predicate Tiles(m: seq<byte>, lo: nat, hi: nat, bs: seq<Block>)
    decreases |bs|
  {
    if bs == [] then lo == hi
    else bs[0].addr == lo && IsBlock(m, bs[0]) && Tiles(m, bs[0].End(), hi, bs[1..])
  }

  /** Every footer points back to the header of its own block. */
  predicate Footed(m: seq<byte>, bs: seq<Block>) {
    bs == [] || (HasFooter(m, bs[0], bs[0].addr) && Footed(m, bs[1..]))
  }

  /** The addresses of the holes. */
  function Holes(bs: seq<Block>): multiset<nat> {
    if bs == [] then multiset{}
    else (if bs[0].hole then multiset{bs[0].addr} else multiset{}) + Holes(bs[1..])
  }

  /** No two neighbouring blocks are both holes. */
  predicate Coalesced(bs: seq<Block>) {
    |bs| < 2 || (!(bs[0].hole && bs[1].hole) && Coalesced(bs[1..]))
  }

  lemma {:induction false} CoalescedPairs(bs: seq<Block>)
    ensures Coalesced(bs) <==> forall i :: 0 <= i < |bs| - 1 ==> !(bs[i].hole && bs[i + 1].hole)
    decreases |bs|
  {
    if |bs| >= 2 {
      CoalescedPairs(bs[1..]);
      if Coalesced(bs[1..]) {
        forall i | 0 < i < |bs| - 1 ensures !(bs[i].hole && bs[i + 1].hole) {
          assert bs[i] == bs[1..][i - 1] && bs[i + 1] == bs[1..][i];
        }
      } else {
        var i :| 0 <= i < |bs[1..]| - 1 && bs[1..][i].hole && bs[1..][i + 1].hole;
        assert bs[i + 1].hole && bs[i + 1 + 1].hole;
      }
    }
  }

  // ---------------------------------------------------------------------------------------------
  // Splitting and joining

  lemma {:induction false} TilesJoin(m: seq<byte>, lo: nat, mid: nat, hi: nat, a: seq<Block>, b: seq<Block>)
    requires Tiles(m, lo, mid, a) && Tiles(m, mid, hi, b)
    ensures Tiles(m, lo, hi, a + b)
    decreases |a|
  {
    if a == [] {
      assert a + b == b;
    } else {
      TilesJoin(m, a[0].End(), mid, hi, a[1..], b);
      assert (a + b)[1..] == a[1..] + b;
    }
  }

  lemma {:induction false} TilesSplit(m: seq<byte>, lo: nat, hi: nat, a: seq<Block>, b: seq<Block>) returns (mid: nat)
    requires Tiles(m, lo, hi, a + b)
    ensures Tiles(m, lo, mid, a) && Tiles(m, mid, hi, b)
    ensures lo <= mid <= hi
    ensures b != [] ==> mid == b[0].addr
    decreases |a|
  {
    if a == [] {
      assert a + b == b;
      mid := lo;
      TilesBounds(m, lo, hi, b);
    } else {
      assert (a + b)[1..] == a[1..] + b;
      mid := TilesSplit(m, a[0].End(), hi, a[1..], b);
    }
  }

  lemma {:induction false} TilesBounds(m: seq<byte>, lo: nat, hi: nat, bs: seq<Block>)
    requires Tiles(m, lo, hi, bs)
    ensures lo <= hi && (bs != [] ==> lo + OVERHEAD <= hi <= |m|)
    decreases |bs|
  {
    if bs != [] {
      TilesBounds(m, bs[0].End(), hi, bs[1..]);
    }
  }

  lemma {:induction false} FootedJoin(m: seq<byte>, a: seq<Block>, b: seq<Block>)
    ensures Footed(m, a + b) <==> Footed(m, a) && Footed(m, b)
  {
    if a == [] {
      assert a + b == b;
    } else {
      FootedJoin(m, a[1..], b);
      assert (a + b)[1..] == a[1..] + b;
    }
  }

  lemma {:induction false} HolesJoin(a: seq<Block>, b: seq<Block>)
    ensures Holes(a + b) == Holes(a) + Holes(b)
  {
    if a == [] {
      assert a + b == b;
    } else {
      HolesJoin(a[1..], b);
      assert (a + b)[1..] == a[1..] + b;
    }
  }

  /** A block of a tiling lies inside it and has a readable header. */
  lemma {:induction false} TilesAt(m: seq<byte>, lo: nat, hi: nat, bs: seq<Block>, i: nat)
    requires Tiles(m, lo, hi, bs) && i < |bs|
    ensures IsBlock(m, bs[i]) && lo <= bs[i].addr && bs[i].End() <= hi
    decreases |bs|
  {
    TilesBounds(m, bs[0].End(), hi, bs[1..]);
    if i > 0 {
      TilesAt(m, bs[0].End(), hi, bs[1..], i - 1);
    }
  }

  /** Blocks of a tiling lie one behind the other. */
  lemma {:induction false} TilesApart(m: seq<byte>, lo: nat, hi: nat, bs: seq<Block>, i: nat, j: nat)
    requires Tiles(m, lo, hi, bs) && i < j < |bs|
    ensures bs[i].End() <= bs[j].addr
    decreases |bs|
  {
    if i == 0 {
      TilesAt(m, bs[0].End(), hi, bs[1..], j - 1);
    } else {
      TilesApart(m, bs[0].End(), hi, bs[1..], i - 1, j - 1);
    }
  }

  lemma {:induction false} FootedAt(m: seq<byte>, bs: seq<Block>, i: nat)
    requires Footed(m, bs) && i < |bs|
    ensures HasFooter(m, bs[i], bs[i].addr)
    decreases |bs|
  {
    if i > 0 {
      FootedAt(m, bs[1..], i - 1);
    }
  }

  lemma {:induction false} HolesAt(bs: seq<Block>, a: nat) returns (i: nat)
    requires a in Holes(bs)
    ensures i < |bs| && bs[i].hole && bs[i].addr == a
    decreases |bs|
  {
    if bs[0].hole && bs[0].addr == a {
      i := 0;
    } else {
      i := HolesAt(bs[1..], a);
      i := i + 1;
    }
  }

  lemma {:induction false} HolesHas(bs: seq<Block>, i: nat)
    requires i < |bs| && bs[i].hole
    ensures bs[i].addr in Holes(bs)
    decreases |bs|
  {
    if i > 0 {
      HolesHas(bs[1..], i - 1);
    }
  }

  // ---------------------------------------------------------------------------------------------
  // The memory determines the tiling, and only the bytes under it matter

  lemma {:induction false} TilesUnique(m: seq<byte>, lo: nat, hi: nat, a: seq<Block>, b: seq<Block>)
    requires Tiles(m, lo, hi, a) && Tiles(m, lo, hi, b)
    ensures a == b
    decreases |a|
  {
    TilesBounds(m, lo, hi, a);
    TilesBounds(m, lo, hi, b);
    if a != [] && b != [] {
      assert a[0] == b[0];
      TilesUnique(m, a[0].End(), hi, a[1..], b[1..]);
      assert a == [a[0]] + a[1..] && b == [b[0]] + b[1..];
    }
  }

  lemma {:induction false} TilesFrame(m: seq<byte>, m': seq<byte>, lo: nat, hi: nat, bs: seq<Block>)
    requires Tiles(m, lo, hi, bs)
    requires bs == [] || SameOn(m, m', lo, hi)
    ensures Tiles(m', lo, hi, bs)
    ensures Footed(m, bs) ==> Footed(m', bs)
    decreases |bs|
  {
    if bs != [] {
      var b := bs[0];
      TilesBounds(m, b.End(), hi, bs[1..]);
      TilesFrame(m, m', b.End(), hi, bs[1..]);
      HeaderKept(m, m', b.addr, b.hole, b.size);
      if Footed(m, bs) {
        FooterKept(m, m', b.End() - FOOTER, b.addr);
      }
    }
  }

  // ---------------------------------------------------------------------------------------------
  // A well-formed heap

  /** The heap between lo and hi is what bs says: its headers tile the range, every footer points to its
      header, the index holds exactly the holes, each once, and no two holes are neighbours.
      Only the one hole of a new heap has no footer yet. */
  predicate HeapIs(m: seq<byte>, lo: nat, hi: nat, index: multiset<nat>, bs: seq<Block>) {
    && Tiles(m, lo, hi, bs)
    && (Footed(m, bs) || (|bs| == 1 && bs[0].hole))
    && index == Holes(bs)
    && Coalesced(bs)
  }

  ghost predicate WellFormed(m: seq<byte>, lo: nat, hi: nat, index: multiset<nat>) {
    exists bs :: HeapIs(m, lo, hi, index, bs)
  }

  /** Taking a tiling apart at block i. */
  lemma TakeApart(m: seq<byte>, lo: nat, hi: nat, bs: seq<Block>, i: nat)
    requires Tiles(m, lo, hi, bs) && i < |bs|
    ensures Tiles(m, lo, bs[i].addr, bs[..i]) && IsBlock(m, bs[i]) && Tiles(m, bs[i].End(), hi, bs[i + 1..])
    ensures Holes(bs) == Holes(bs[..i]) + Holes([bs[i]]) + Holes(bs[i + 1..])
    ensures Footed(m, bs) <==> Footed(m, bs[..i]) && HasFooter(m, bs[i], bs[i].addr) && Footed(m, bs[i + 1..])
  {
    var l, r := bs[..i], bs[i..];
    assert bs == l + r && r[1..] == bs[i + 1..];
    var mid := TilesSplit(m, lo, hi, l, r);
    HolesJoin(l, r);
    FootedJoin(m, l, r);
    assert Holes([bs[i]]) == if bs[i].hole then multiset{bs[i].addr} else multiset{};
  }

  /** The blocks other than block i have footers, even in a new heap. */
  lemma OthersFooted(m: seq<byte>, lo: nat, hi: nat, bs: seq<Block>, i: nat)
    requires Tiles(m, lo, hi, bs) && i < |bs|
    requires Footed(m, bs) || |bs| == 1
    ensures Footed(m, bs[..i]) && Footed(m, bs[i + 1..])
  {
    if Footed(m, bs) {
      TakeApart(m, lo, hi, bs, i);
    }
  }

  /** Block i of a tiling gives way to the blocks x. */
  lemma Surgery(m: seq<byte>, m': seq<byte>, lo: nat, hi: nat, bs: seq<Block>, i: nat, x: seq<Block>)
    requires Tiles(m, lo, hi, bs) && i < |bs|
    requires Footed(m, bs) || |bs| == 1
    requires SameOutside(m, m', bs[i].addr, bs[i].End())
    requires Tiles(m', bs[i].addr, bs[i].End(), x) && Footed(m', x)
    ensures Tiles(m', lo, hi, bs[..i] + x + bs[i + 1..]) && Footed(m', bs[..i] + x + bs[i + 1..])
    ensures Holes(bs[..i] + x + bs[i + 1..]) + Holes([bs[i]]) == Holes(bs) + Holes(x)
  {
    var b, l, r := bs[i], bs[..i], bs[i + 1..];
    TakeApart(m, lo, hi, bs, i);
    OthersFooted(m, lo, hi, bs, i);
    SidesKept(m, m', lo, b.addr, b.End(), hi, l, r);
    PutTogether(m', lo, b.addr, b.End(), hi, l, x, r);
  }

  /** Putting one together from a left part, a middle and a right part. */
  lemma PutTogether(m: seq<byte>, lo: nat, a: nat, z: nat, hi: nat, l: seq<Block>, x: seq<Block>, r: seq<Block>)
    requires Tiles(m, lo, a, l) && Tiles(m, a, z, x) && Tiles(m, z, hi, r)
    ensures Tiles(m, lo, hi, l + x + r)
    ensures Holes(l + x + r) == Holes(l) + Holes(x) + Holes(r)
    ensures Footed(m, l + x + r) <==> Footed(m, l) && Footed(m, x) && Footed(m, r)
  {
    TilesJoin(m, lo, a, z, l, x);
    TilesJoin(m, lo, z, hi, l + x, r);
    HolesJoin(l, x);
    HolesJoin(l + x, r);
    FootedJoin(m, l, x);
    FootedJoin(m, l + x, r);
  }

  /** What happens between a and z does not concern the parts on either side. */
  lemma SidesKept(m: seq<byte>, m': seq<byte>, lo: nat, a: nat, z: nat, hi: nat, l: seq<Block>, r: seq<Block>)
    requires Tiles(m, lo, a, l) && Tiles(m, z, hi, r) && a <= z
    requires SameOutside(m, m', a, z)
    ensures Tiles(m', lo, a, l) && Tiles(m', z, hi, r)
    ensures Footed(m, l) ==> Footed(m', l)
    ensures Footed(m, r) ==> Footed(m', r)
  {
    TilesBounds(m, lo, a, l);
    TilesBounds(m, z, hi, r);
    TilesFrame(m, m', lo, a, l);
    TilesFrame(m, m', z, hi, r);
  }

  /** Surgery on a well-formed heap: the blocks x, with footers, take the place of block i, and the index
      follows. */
  lemma SurgeryKeeps(m: seq<byte>, m': seq<byte>, lo: nat, hi: nat, index: multiset<nat>, index': multiset<nat>,
    bs: seq<Block>, i: nat, x: seq<Block>)
    requires HeapIs(m, lo, hi, index, bs) && i < |bs|
    requires SameOutside(m, m', bs[i].addr, bs[i].End())
    requires Tiles(m', bs[i].addr, bs[i].End(), x) && Footed(m', x)
    requires Coalesced(bs[..i] + x + bs[i + 1..])
    requires index' + Holes([bs[i]]) == index + Holes(x)
    ensures HeapIs(m', lo, hi, index', bs[..i] + x + bs[i + 1..])
  {
    Surgery(m, m', lo, hi, bs, i, x);
    SumsCancel(index', index, Holes([bs[i]]), Holes(x), Holes(bs[..i] + x + bs[i + 1..]));
  }

  lemma SumsCancel(a: multiset<nat>, b: multiset<nat>, c: multiset<nat>, d: multiset<nat>, e: multiset<nat>)
    requires a + c == b + d && e + c == b + d
    ensures a == e
  {
    forall x ensures a[x] == e[x] {
      assert (a + c)[x] == (e + c)[x];
    }
  }

  /** The hole with the highest address is the last block exactly when the last block is a hole. */
  lemma LastHole(m: seq<byte>, lo: nat, hi: nat, bs: seq<Block>, k: nat)
    requires Tiles(m, lo, hi, bs) && k < |bs| && bs[k].hole
    requires forall a :: a in Holes(bs) ==> a <= bs[k].addr
    ensures k == |bs| - 1 <==> bs[|bs| - 1].hole
    ensures k == |bs| - 1 <==> bs[k].End() == hi
  {
    var last := |bs| - 1;
    TilesLast(m, lo, hi, bs);
    if k < last {
      TilesApart(m, lo, hi, bs, k, last);
      TilesAt(m, lo, hi, bs, last);
      if bs[last].hole {
        HolesHas(bs, last);
        TilesAt(m, lo, hi, bs, k);
      }
    }
  }

  lemma {:induction false} TilesLast(m: seq<byte>, lo: nat, hi: nat, bs: seq<Block>)
    requires Tiles(m, lo, hi, bs) && bs != []
    ensures bs[|bs| - 1].End() == hi
    decreases |bs|
  {
    if |bs| > 1 {
      TilesLast(m, bs[0].End(), hi, bs[1..]);
    }
  }

  /** A tiling grows at its end: the block behind the left part l now reaches to the new end. */
  lemma Extend(m: seq<byte>, m': seq<byte>, lo: nat, a: nat, hi': nat, l: seq<Block>, x: Block)
    requires Tiles(m, lo, a, l) && (l == [] || SameOn(m, m', lo, a)) && Footed(m, l)
    requires x.addr == a && x.End() == hi' && IsBlock(m', x) && HasFooter(m', x, a)
    ensures Tiles(m', lo, hi', l + [x]) && Footed(m', l + [x])
    ensures Holes(l + [x]) == Holes(l) + (if x.hole then multiset{a} else multiset{})
  {
    TilesFrame(m, m', lo, a, l);
    assert [x][1..] == [];
    TilesJoin(m', lo, a, hi', l, [x]);
    FootedJoin(m', l, [x]);
    HolesJoin(l, [x]);
  }
}
