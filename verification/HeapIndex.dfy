/** The index of the holes: as long as it is sorted it finds the best fit, and alloc keeps it sorted. Changing
    the size of a hole where it stands in the index may not. */
module HeapIndex {
  import opened Machine
  import opened HeapMemory
  import opened HeapTiling
  import opened HeapSpec
  import opened OrderedArray

  ghost predicate SortedBySize(m: seq<byte>, s: seq<nat>) {
    Sorted(s, BySize(m))
  }

  /** The entries other than a are in order. */
  ghost predicate SortedBut(m: seq<byte>, s: seq<nat>, a: nat) {
    forall i, j :: 0 <= i < j < |s| && s[i] != a && s[j] != a ==> SizeAt(m, s[i]) <= SizeAt(m, s[j])
  }

  /** So are the entry a and those beside it. */
  ghost predicate BesideOrdered(m: seq<byte>, s: seq<nat>, a: nat) {
    forall i, j :: 0 <= i < j < |s| && j == i + 1 && (s[i] == a || s[j] == a) ==> SizeAt(m, s[i]) <= SizeAt(m, s[j])
  }

  lemma BesideNothing(m: seq<byte>, s: seq<nat>, a: nat)
    requires a !in s
    ensures BesideOrdered(m, s, a)
  {
  }

  lemma {:induction false} NeighboursSuffice(m: seq<byte>, s: seq<nat>, a: nat, i: nat, j: nat)
    requires i <= j < |s| && SortedBut(m, s, a) && BesideOrdered(m, s, a)
    ensures SizeAt(m, s[i]) <= SizeAt(m, s[j])
  {
    if i < j {
      NeighboursSuffice(m, s, a, i, j - 1);
    }
  }

  /** Changing the size of a hole where it stands in the index keeps the index sorted exactly if the entries beside
      it allow the new size. */
  lemma ResizedInPlace(m: seq<byte>, m': seq<byte>, s: seq<nat>, a: nat)
    requires SortedBut(m, s, a) && forall b :: b in s && b != a ==> SizeAt(m', b) == SizeAt(m, b)
    ensures SortedBut(m', s, a)
    ensures SortedBySize(m', s) <==> BesideOrdered(m', s, a)
  {
    assert SortedBut(m', s, a);
    NeighboursDecide(m', s, a);
  }

  lemma NeighboursDecide(m: seq<byte>, s: seq<nat>, a: nat)
    requires SortedBut(m, s, a)
    ensures SortedBySize(m, s) <==> BesideOrdered(m, s, a)
  {
    if BesideOrdered(m, s, a) {
      forall x, y | 0 <= x < y < |s| ensures !BySize(m)(s[y], s[x]) {
        NeighboursSuffice(m, s, a, x, y);
      }
    } else {
      var i, j :| 0 <= i < j < |s| && j == i + 1 && (s[i] == a || s[j] == a) && SizeAt(m, s[i]) > SizeAt(m, s[j]);
      assert BySize(m)(s[j], s[i]);
    }
  }

  lemma SortedAnyway(m: seq<byte>, s: seq<nat>, a: nat)
    requires SortedBySize(m, s)
    ensures SortedBut(m, s, a)
  {
    forall i, j | 0 <= i < j < |s| ensures SizeAt(m, s[i]) <= SizeAt(m, s[j]) {
      assert !BySize(m)(s[j], s[i]);
    }
  }

  lemma StillInOrder(m: seq<byte>, m': seq<byte>, s: seq<nat>)
    requires SortedBySize(m, s) && forall b :: b in s ==> SizeAt(m', b) == SizeAt(m, b)
    ensures SortedBySize(m', s)
  {
    forall x, y | 0 <= x < y < |s| ensures !BySize(m')(s[y], s[x]) {
      assert !BySize(m)(s[y], s[x]);
    }
  }

  lemma SizesBefore(m: seq<byte>, m': seq<byte>, lo: nat, hi: nat, s: seq<nat>)
    requires SameOutside(m, m', lo, hi) && forall a :: a in s ==> a + HEADER <= lo
    ensures forall a :: a in s ==> SizeAt(m', a) == SizeAt(m, a)
  {
    forall a | a in s && a + HEADER <= |m| ensures SizeAt(m', a) == SizeAt(m, a) {
      WordBefore(m, m', lo, hi, a + 8);
    }
  }

  /** A new entry goes where its size belongs. */
  lemma InsertedInOrder(m: seq<byte>, s: seq<nat>, a: nat)
    requires SortedBySize(m, s)
    ensures SortedBySize(m, Inserted(s, a, BySize(m)))
  {
    BySizeStrictWeak(m);
    InsertedSorted(s, a, BySize(m));
  }

  /** Without the entry that is out of order the rest is sorted. */
  lemma RemovedInOrder(m: seq<byte>, s: seq<nat>, i: nat)
    requires i < |s| && SortedBut(m, s, s[i]) && s[i] !in Removed(s, i)
    ensures SortedBySize(m, Removed(s, i))
  {
    var t := Removed(s, i);
    forall x, y | 0 <= x < y < |t| ensures !BySize(m)(t[y], t[x]) {
      assert t[x] == s[if x < i then x else x + 1] && t[y] == s[if y < i then y else y + 1];
      assert t[x] in t && t[y] in t;
    }
  }

  /** The payload at p was cut from a smallest of the holes that hold n bytes. */
  ghost predicate CutFromSmallest(bs: seq<Block>, bs': seq<Block>, n: nat, p: nat) {
    exists k :: 0 <= k < |bs| && AllocatedAt(bs, bs', k, n, p) && NoneSmaller(bs, bs[k].size, n)
  }

  /** No hole that holds n bytes is smaller than size. */
  ghost predicate NoneSmaller(bs: seq<Block>, size: nat, n: nat) {
    forall b :: b in bs && b.hole && b.size >= n ==> size <= b.size
  }

  /** Whatever the sizes are, s' is in order apart from a if s is. */
  ghost predicate Thinned(s: seq<nat>, s': seq<nat>, a: nat) {
    forall m :: SortedBut(m, s, a) ==> SortedBut(m, s', a)
  }

  lemma ThinnedNot(s: seq<nat>, a: nat)
    ensures Thinned(s, s, a)
  {
  }

  lemma ThinnedTwice(s: seq<nat>, s': seq<nat>, s'': seq<nat>, a: nat)
    requires Thinned(s, s', a) && Thinned(s', s'', a)
    ensures Thinned(s, s'', a)
  {
    forall m | SortedBut(m, s, a) ensures SortedBut(m, s'', a) {
      assert SortedBut(m, s', a);
    }
  }

  lemma RemovedThins(s: seq<nat>, i: nat, a: nat)
    requires i < |s|
    ensures Thinned(s, Removed(s, i), a)
  {
    var t := Removed(s, i);
    forall m | SortedBut(m, s, a) ensures SortedBut(m, t, a) {
      forall x, y | 0 <= x < y < |t| && t[x] != a && t[y] != a ensures SizeAt(m, t[x]) <= SizeAt(m, t[y]) {
        assert t[x] == s[if x < i then x else x + 1] && t[y] == s[if y < i then y else y + 1];
      }
    }
  }

  /** Inserting an entry puts it between entries that its size belongs between. */
  lemma InsertedThins(m: seq<byte>, s: seq<nat>, a: nat)
    requires a !in s
    ensures Thinned(s, Inserted(s, a, BySize(m)), a) && BesideOrdered(m, Inserted(s, a, BySize(m)), a)
  {
    var k, t := Position(s, a, BySize(m)), Inserted(s, a, BySize(m));
    forall m' | SortedBut(m', s, a) ensures SortedBut(m', t, a) {
      forall x, y | 0 <= x < y < |t| && t[x] != a && t[y] != a ensures SizeAt(m', t[x]) <= SizeAt(m', t[y]) {
        assert t[x] == s[if x < k then x else x - 1] && t[y] == s[if y < k then y else y - 1];
      }
    }
    assert k > 0 ==> BySize(m)(s[k - 1], a);
    assert k < |s| ==> !BySize(m)(s[k], a);
  }

  /** Where a hole was cut out of what lay between the blocks l and r, the sizes of the others stay. */
  lemma OthersKeepSize(m: seq<byte>, m': seq<byte>, lo: nat, hi: nat, s: seq<nat>, l: seq<Block>, cur: Block,
    r: seq<Block>)
    requires HeapIs(m', lo, hi, multiset(s), Settled(l, cur, r, hi)) && SameOutside(m, m', cur.addr, cur.End())
    ensures forall b :: b in s && b != cur.addr ==> SizeAt(m', b) == SizeAt(m, b)
  {
    var bs, n := Settled(l, cur, r, hi), |l|;
    forall b | b in s && b != cur.addr ensures SizeAt(m', b) == SizeAt(m, b) {
      assert b in multiset(s);
      var j := HolesAt(bs, b);
      TilesAt(m', lo, hi, bs, j);
      if n < j {
        TilesApart(m', lo, hi, bs, n, j);
      } else if |bs| > n {
        TilesApart(m', lo, hi, bs, j, n);
      }
      BytesKept(m', m, b + 8, b + HEADER);
    }
  }

  lemma CutFromSmallestHere(bs: seq<Block>, bs': seq<Block>, k: nat, n: nat, p: nat)
    requires k < |bs| && AllocatedAt(bs, bs', k, n, p) && NoneSmaller(bs, bs[k].size, n)
    ensures CutFromSmallest(bs, bs', n, p)
  {
  }

  /** The addresses of a tiling differ, so every hole is in the index once. */
  lemma {:induction false} HolesOnce(m: seq<byte>, lo: nat, hi: nat, bs: seq<Block>, a: nat)
    requires Tiles(m, lo, hi, bs)
    ensures Holes(bs)[a] <= 1 && (a in Holes(bs) ==> lo <= a)
    decreases |bs|
  {
    if bs != [] {
      HolesOnce(m, bs[0].End(), hi, bs[1..], a);
    }
  }

  /** On a sorted index the first hole that fits is a smallest one. */
  lemma BestFit(m: seq<byte>, s: seq<nat>, i: nat, n: nat)
    requires SortedBySize(m, s) && i < |s| && SizeAt(m, s[i]) >= n
    requires forall j :: 0 <= j < i ==> SizeAt(m, s[j]) < n
    ensures forall a :: a in s && SizeAt(m, a) >= n ==> SizeAt(m, s[i]) <= SizeAt(m, a)
  {
    forall a | a in s && SizeAt(m, a) >= n ensures SizeAt(m, s[i]) <= SizeAt(m, a) {
      var j :| 0 <= j < |s| && s[j] == a;
      if i < j {
        assert !BySize(m)(s[j], s[i]);
      }
    }
  }

  /** Allocating from a hole leaves the index sorted, even if the entry of that hole was out of order. */
  lemma AllocKeepsSorted(m: seq<byte>, m': seq<byte>, lo: nat, hi: nat, s: seq<nat>, s': seq<nat>, i: nat,
    bs: seq<Block>, k: nat, n: nat)
    requires HeapIs(m, lo, hi, multiset(s), bs) && k < |bs| && bs[k].hole && n <= bs[k].size
    requires i < |s| && s[i] == bs[k].addr
    requires SameOutside(m, m', bs[k].addr, bs[k].End())
    requires SortedBut(m, s, bs[k].addr) && s' == CarvedIndex(s, i, bs[k], n, BySize(m'))
    ensures SortedBySize(m', s')
  {
    hide SameOutside, SizeAt, BySize, SortedBySize, SortedBut, Inserted, Carved;
    var t := Removed(s, i);
    forall b | b in t ensures SizeAt(m', b) == SizeAt(m, b) && b != bs[k].addr {
      OtherHoleKept(m, m', lo, hi, s, i, bs, k, b);
    }
    RemovedInOrder(m, s, i);
    StillInOrder(m, m', t);
    InsertedInOrder(m', t, bs[k].addr + n);
  }

  /** What happens inside hole k does not change the size of any other hole. */
  lemma OtherHoleKept(m: seq<byte>, m': seq<byte>, lo: nat, hi: nat, s: seq<nat>, i: nat, bs: seq<Block>, k: nat,
    a: nat)
    requires Tiles(m, lo, hi, bs) && multiset(s) == Holes(bs) && k < |bs| && bs[k].hole
    requires i < |s| && s[i] == bs[k].addr && a in Removed(s, i)
    requires SameOutside(m, m', bs[k].addr, bs[k].End())
    ensures SizeAt(m', a) == SizeAt(m, a) && a != bs[k].addr
  {
    RemovedItems(s, i);
    HolesOnce(m, lo, hi, bs, a);
    assert a in multiset(Removed(s, i));
    assert a != bs[k].addr;
    assert a in multiset(s);
    var j := HolesAt(bs, a);
    TilesAt(m, lo, hi, bs, j);
    TilesAt(m, lo, hi, bs, k);
    if j < k {
      TilesApart(m, lo, hi, bs, j, k);
    } else {
      TilesApart(m, lo, hi, bs, k, j);
    }
    BytesKept(m, m', a + 8, a + HEADER);
  }

  /** On a sorted index, the hole of the first entry that fits is a smallest hole that fits. */
  lemma BestHole(m: seq<byte>, lo: nat, hi: nat, s: seq<nat>, i: nat, bs: seq<Block>, k: nat, n: nat)
    requires HeapIs(m, lo, hi, multiset(s), bs) && k < |bs| && i < |s| && s[i] == bs[k].addr
    requires SortedBySize(m, s) && SizeAt(m, s[i]) >= n
    requires forall j :: 0 <= j < i ==> SizeAt(m, s[j]) < n
    ensures NoneSmaller(bs, bs[k].size, n)
  {
    hide SortedBySize;
    BestFit(m, s, i, n);
    TilesAt(m, lo, hi, bs, k);
    forall b | b in bs && b.hole && b.size >= n ensures bs[k].size <= b.size {
      var j :| 0 <= j < |bs| && bs[j] == b;
      HolesHas(bs, j);
      TilesAt(m, lo, hi, bs, j);
      assert b.addr in multiset(s);
      assert SizeAt(m, b.addr) == b.size;
    }
  }
}
