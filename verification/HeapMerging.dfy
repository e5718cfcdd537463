/** The states that free passes through: one hole in the middle is being merged with its neighbours, and
    everything on either side of it is in order. */
module HeapMerging {
  import opened Machine
  import opened HeapMemory
  import opened HeapTiling

  /** Between the parts l and r of the heap lies the hole cur. Its header is right; its footer may not be.
      The index holds the holes of l and r and, if listed, cur. */
  predicate Mid(m: seq<byte>, lo: nat, hi: nat, index: multiset<nat>, l: seq<Block>, cur: Block, r: seq<Block>,
    listed: bool) {
    && Tiles(m, lo, cur.addr, l) && IsBlock(m, cur) && cur.hole && Tiles(m, cur.End(), hi, r)
    && Footed(m, l) && Footed(m, r)
    && index == Holes(l) + (if listed then multiset{cur.addr} else multiset{}) + Holes(r)
  }

  lemma MidParts(m: seq<byte>, lo: nat, hi: nat, index: multiset<nat>, l: seq<Block>, cur: Block, r: seq<Block>,
    listed: bool)
    requires Mid(m, lo, hi, index, l, cur, r, listed)
    ensures IsBlock(m, cur) && cur.hole && OVERHEAD <= cur.size && cur.End() <= |m| && Word(m, cur.addr + 8) == cur.size
    ensures Tiles(m, cur.End(), hi, r) && Footed(m, r) && cur.End() <= hi && (r != [] ==> r[0].addr == cur.End())
  {
    TilesBounds(m, cur.End(), hi, r);
  }

  /** Every index entry lies below the end of the heap. */
  lemma MidBelow(m: seq<byte>, lo: nat, hi: nat, index: multiset<nat>, l: seq<Block>, cur: Block, r: seq<Block>,
    listed: bool, a: nat)
    requires Mid(m, lo, hi, index, l, cur, r, listed) && a in index
    ensures a < hi && (a in Holes(l) ==> a < cur.addr)
  {
    TilesBounds(m, cur.End(), hi, r);
    if a in Holes(l) {
      var i := HolesAt(l, a);
      TilesAt(m, lo, cur.addr, l, i);
    } else if a in Holes(r) {
      var i := HolesAt(r, a);
      TilesAt(m, cur.End(), hi, r, i);
    }
  }

  /** If there is a hole to the right, it is in the index; what lies behind the heap is not. */
  lemma RightListed(m: seq<byte>, lo: nat, hi: nat, index: multiset<nat>, l: seq<Block>, cur: Block, r: seq<Block>,
    listed: bool)
    requires Mid(m, lo, hi, index, l, cur, r, listed) && (r != [] ==> r[0].hole)
    ensures cur.End() in index <==> r != []
  {
    if r != [] {
      HolesHas(r, 0);
    } else if cur.End() in index {
      MidBelow(m, lo, hi, index, l, cur, r, listed, cur.End());
    }
  }

  /** The merged hole itself is in the index only if it is listed. */
  lemma MidOwn(m: seq<byte>, lo: nat, hi: nat, index: multiset<nat>, l: seq<Block>, cur: Block, listed: bool)
    requires Mid(m, lo, hi, index, l, cur, [], listed)
    ensures cur.addr !in Holes(l)
    ensures index == Holes(l) + (if listed then multiset{cur.addr} else multiset{})
  {
    if cur.addr in Holes(l) {
      MidBelow(m, lo, hi, index, l, cur, [], listed, cur.addr);
    }
  }

  lemma MidFresh(m: seq<byte>, lo: nat, hi: nat, index: multiset<nat>, l: seq<Block>, cur: Block, r: seq<Block>)
    requires Mid(m, lo, hi, index, l, cur, r, false)
    ensures cur.addr !in index
  {
    if cur.addr in Holes(l) {
      MidBelow(m, lo, hi, index, l, cur, r, false, cur.addr);
    } else if cur.addr in Holes(r) {
      var i := HolesAt(r, cur.addr);
      TilesAt(m, cur.End(), hi, r, i);
    }
  }

  predicate EndsInUse(l: seq<Block>) {
    l == [] || !l[|l| - 1].hole
  }

  predicate StartsInUse(r: seq<Block>) {
    r == [] || !r[0].hole
  }

  /** What the unification of cur with the blocks l to the left of it gives. */
  predicate LeftMerged(l: seq<Block>, cur: Block, l': seq<Block>, cur': Block) {
    if EndsInUse(l) then l' == l && cur' == cur
    else l' == l[..|l| - 1] && cur' == Block(l[|l| - 1].addr, l[|l| - 1].size + cur.size, true)
  }

  lemma CoalescedJoin(l: seq<Block>, cur: Block, r: seq<Block>)
    requires Coalesced(l) && Coalesced(r) && EndsInUse(l) && StartsInUse(r)
    ensures Coalesced(l + [cur] + r)
  {
    var t, n := l + [cur] + r, |l|;
    CoalescedPairs(l);
    CoalescedPairs(r);
    CoalescedPairs(t);
    forall i | 0 <= i < |t| - 1 ensures !(t[i].hole && t[i + 1].hole) {
      if i + 1 < n {
        assert t[i] == l[i] && t[i + 1] == l[i + 1];
      } else if i > n {
        assert t[i] == r[i - n - 1] && t[i + 1] == r[i - n];
      }
    }
  }

  lemma CoalescedSides(bs: seq<Block>, k: nat)
    requires Coalesced(bs) && k < |bs|
    ensures Coalesced(bs[..k]) && Coalesced(bs[k + 1..])
    ensures bs[k].hole ==> EndsInUse(bs[..k]) && StartsInUse(bs[k + 1..])
  {
    CoalescedPairs(bs);
    CoalescedPairs(bs[..k]);
    CoalescedPairs(bs[k + 1..]);
    var r := bs[k + 1..];
    assert forall i :: 0 <= i < |r| ==> r[i] == bs[i + k + 1];
    if k > 0 {
      assert !(bs[k - 1].hole && bs[k - 1 + 1].hole);
    }
  }

  /** Putting the heap together again around the merged hole. */
  lemma Merged(m: seq<byte>, lo: nat, hi: nat, index: multiset<nat>, l: seq<Block>, cur: Block, r: seq<Block>)
    requires Mid(m, lo, hi, index, l, cur, r, true)
    ensures Tiles(m, lo, hi, l + [cur] + r)
    ensures index == Holes(l + [cur] + r)
    ensures Footed(m, l + [cur] + r) <==> HasFooter(m, cur, cur.addr)
  {
    assert [cur][1..] == [];
    PutTogether(m, lo, cur.addr, cur.End(), hi, l, [cur], r);
  }

  lemma MergedKeeps(m: seq<byte>, lo: nat, hi: nat, index: multiset<nat>, l: seq<Block>, cur: Block, r: seq<Block>)
    requires Mid(m, lo, hi, index, l, cur, r, true) && HasFooter(m, cur, cur.addr)
    requires Coalesced(l) && Coalesced(r) && EndsInUse(l) && StartsInUse(r)
    ensures HeapIs(m, lo, hi, index, l + [cur] + r)
  {
    Merged(m, lo, hi, index, l, cur, r);
    CoalescedJoin(l, cur, r);
  }

  /** A hole whose footer points elsewhere spoils the heap, whatever way one reads it. */
  lemma WrongFooter(m: seq<byte>, lo: nat, hi: nat, index: multiset<nat>, l: seq<Block>, cur: Block, r: seq<Block>)
    requires Mid(m, lo, hi, index, l, cur, r, true) && r != [] && !HasFooter(m, cur, cur.addr)
    ensures !WellFormed(m, lo, hi, index)
  {
    Merged(m, lo, hi, index, l, cur, r);
    forall bs ensures !HeapIs(m, lo, hi, index, bs) {
      if HeapIs(m, lo, hi, index, bs) {
        TilesUnique(m, lo, hi, bs, l + [cur] + r);
      }
    }
  }

  /** An index entry too close to the end of the heap, or behind it, spoils the heap as well. */
  lemma StrayEntry(m: seq<byte>, lo: nat, hi: nat, index: multiset<nat>, a: nat)
    requires a in index && hi < a + OVERHEAD
    ensures !WellFormed(m, lo, hi, index)
  {
    forall bs ensures !HeapIs(m, lo, hi, index, bs) {
      if HeapIs(m, lo, hi, index, bs) {
        var i := HolesAt(bs, a);
        TilesAt(m, lo, hi, bs, i);
      }
    }
  }

  // ---------------------------------------------------------------------------------------------
  // The steps of free

  /** Setting the is_hole byte of a block in use makes it a hole that is not in the index yet. */
  lemma Marked(m: seq<byte>, m': seq<byte>, lo: nat, hi: nat, index: multiset<nat>, bs: seq<Block>, k: nat)
    requires HeapIs(m, lo, hi, index, bs) && k < |bs| && !bs[k].hole
    requires SameOutside(m, m', bs[k].addr + 4, bs[k].addr + 5) && bs[k].addr + 4 < |m'| && m'[bs[k].addr + 4] == 1
    ensures Mid(m', lo, hi, index, bs[..k], bs[k].(hole := true), bs[k + 1..], false)
    ensures HasFooter(m', bs[k], bs[k].addr)
  {
    hide SameOutside, IsBlock, HasFooter, Coalesced, Holes;
    TakeApart(m, lo, hi, bs, k);
    NowHole(m, m', bs[k]);
    SidesKept(m, m', lo, bs[k].addr, bs[k].End(), hi, bs[..k], bs[k + 1..]);
    NoHole(bs[k]);
  }

  lemma NoHole(b: Block)
    requires !b.hole
    ensures Holes([b]) == multiset{}
  {
    assert [b][1..] == [];
  }

  lemma NowHole(m: seq<byte>, m': seq<byte>, b: Block)
    requires IsBlock(m, b) && HasFooter(m, b, b.addr)
    requires SameOutside(m, m', b.addr + 4, b.addr + 5) && m'[b.addr + 4] == 1
    ensures IsBlock(m', b.(hole := true)) && HasFooter(m', b, b.addr) && SameOutside(m, m', b.addr, b.End())
  {
    BytesKept(m, m', b.addr, b.addr + 4);
    BytesKept(m, m', b.addr + 8, b.addr + HEADER);
    FooterKept(m, m', b.End() - FOOTER, b.addr);
  }

  /** The hole is joined to the hole on its left, which is in the index already. */
  lemma JoinedLeft(m: seq<byte>, m': seq<byte>, lo: nat, hi: nat, index: multiset<nat>, l: seq<Block>, cur: Block,
    r: seq<Block>)
    requires Mid(m, lo, hi, index, l, cur, r, false) && l != [] && l[|l| - 1].hole
    requires SameOutside(m, m', l[|l| - 1].addr, cur.End())
    requires IsBlock(m', Block(l[|l| - 1].addr, l[|l| - 1].size + cur.size, true))
    ensures l[|l| - 1].End() == cur.addr
    ensures Mid(m', lo, hi, index, l[..|l| - 1], Block(l[|l| - 1].addr, l[|l| - 1].size + cur.size, true), r, true)
  {
    var n := |l| - 1;
    TilesLast(m, lo, cur.addr, l);
    TakeApart(m, lo, cur.addr, l, n);
    assert l[n + 1..] == [] && Holes([l[n]]) == multiset{l[n].addr};
    SidesKept(m, m', lo, l[n].addr, cur.End(), hi, l[..n], r);
  }

  /** The hole swallows the hole on its right, which leaves the index. */
  lemma JoinedRight(m: seq<byte>, m': seq<byte>, lo: nat, hi: nat, index: multiset<nat>, index': multiset<nat>,
    l: seq<Block>, cur: Block, r: seq<Block>, listed: bool)
    requires Mid(m, lo, hi, index, l, cur, r, listed) && r != [] && r[0].hole
    requires SameOutside(m, m', cur.addr, r[0].End())
    requires IsBlock(m', Block(cur.addr, cur.size + r[0].size, true))
    requires index == index' + multiset{r[0].addr}
    ensures Mid(m', lo, hi, index', l, Block(cur.addr, cur.size + r[0].size, true), r[1..], listed)
  {
    SidesKept(m, m', lo, cur.addr, r[0].End(), hi, l, r[1..]);
    var h := Holes(l) + (if listed then multiset{cur.addr} else multiset{});
    assert index == h + Holes(r[1..]) + multiset{r[0].addr};
    SumsCancel(index', index, multiset{r[0].addr}, multiset{}, h + Holes(r[1..]));
  }

  /** The last block, the merged hole, is cut off at the new end of the heap. */
  lemma CutOff(m: seq<byte>, m': seq<byte>, lo: nat, hi: nat, hi': nat, index: multiset<nat>, l: seq<Block>,
    cur: Block, listed: bool)
    requires Mid(m, lo, hi, index, l, cur, [], listed) && cur.addr + OVERHEAD <= hi' <= hi
    requires SameOutside(m, m', cur.addr, hi)
    requires IsBlock(m', Block(cur.addr, hi' - cur.addr, true))
    ensures Mid(m', lo, hi', index, l, Block(cur.addr, hi' - cur.addr, true), [], listed)
  {
    SidesKept(m, m', lo, cur.addr, hi, hi, l, []);
  }

  /** Without the last block, the merged hole, the blocks in front of it are a heap on their own. */
  lemma GivenUp(m: seq<byte>, lo: nat, hi: nat, index: multiset<nat>, l: seq<Block>, cur: Block, listed: bool)
    requires Mid(m, lo, hi, index, l, cur, [], listed) && Coalesced(l)
    ensures HeapIs(m, lo, cur.addr, Holes(l), l)
  {
  }
}
