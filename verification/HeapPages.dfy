/** The pages under the kernel heap: which frames expand asks for and which ones contract gives back. */
module HeapPages {
  import opened Machine
  import opened HeapMemory
  import opened HeapSpec

  /** The pages that the loop of expand touches: one for each PAGE-sized step from offset i on. */
  function Touched(start: nat, i: nat, size: nat): set<nat>
    decreases size - i
  {
    if i < size then {(start + i) / PAGE} + Touched(start, i + PAGE, size) else {}
  }

  /** Every address from lo to hi lies in one of the pages. */
  ghost predicate Covered(pages: set<nat>, lo: nat, hi: nat) {
    forall a :: lo <= a < hi ==> a / PAGE in pages
  }

  lemma CoveredWithin(pages: set<nat>, lo: nat, hi: nat, a: nat, z: nat)
    requires Covered(pages, lo, hi) && lo <= a && z <= hi
    ensures Covered(pages, a, z)
  {
  }

  /** The pages touched are those that the steps can reach. */
  lemma {:induction false} TouchedPages(start: nat, i: nat, size: nat, p: nat)
    requires start % PAGE == 0
    ensures p in Touched(start, i, size) <==>
      (start + i) / PAGE <= p && (p - (start + i) / PAGE) * PAGE + i < size
    decreases size - i
  {
    if i < size {
      TouchedPages(start, i + PAGE, size, p);
      assert (start + (i + PAGE)) / PAGE == (start + i) / PAGE + 1;
    }
  }

  /** The offset of the old length i in its page does not push the last step past the page of the last byte. */
  predicate StepsFit(i: nat, size: nat)
    requires i < size
  {
    i % PAGE + (size - 1 - i) % PAGE < PAGE
  }

  lemma LastTouched(start: nat, i: nat, size: nat)
    requires start % PAGE == 0 && i < size
    ensures (start + size - 1) / PAGE in Touched(start, i, size) <==> StepsFit(i, size)
  {
    var first, n := (start + i) / PAGE, (size - 1 - i) / PAGE;
    assert size - 1 - i == n * PAGE + (size - 1 - i) % PAGE;
    assert (start + i) % PAGE == i % PAGE by { AlignedSum(start, i); }
    assert start + size - 1 == (first + n) * PAGE + (i % PAGE + (size - 1 - i) % PAGE);
    TouchedPages(start, i, size, (start + size - 1) / PAGE);
  }

  /** The steps do not reach a page behind the new end. */
  lemma NoneTouchedBehind(start: nat, i: nat, size: nat, p: nat)
    requires start % PAGE == 0 && i < size && p in Touched(start, i, size)
    ensures p * PAGE < start + size
  {
    TouchedPages(start, i, size, p);
    assert (start + i) / PAGE * PAGE <= start + i;
  }

  /** Every address from lo to hi lies in one of the pages, unless it is in the last page. */
  ghost predicate NearlyCovered(pages: set<nat>, lo: nat, hi: nat) {
    forall a :: lo <= a < hi && a / PAGE < (hi - 1) / PAGE ==> a / PAGE in pages
  }

  /** Then the last byte decides. */
  lemma LastByteDecides(pages: set<nat>, lo: nat, hi: nat, z: nat)
    requires NearlyCovered(pages, lo, hi) && lo < z <= hi
    ensures Covered(pages, lo, z) <==> (z - 1) / PAGE in pages
  {
    if (z - 1) / PAGE in pages {
      forall a | lo <= a < z ensures a / PAGE in pages {
        assert a / PAGE <= (z - 1) / PAGE <= (hi - 1) / PAGE;
      }
    }
  }

  /** The steps of expand can miss the last page only. */
  lemma OnlyLastMissed(pages: set<nat>, lo: nat, start: nat, i: nat, size: nat)
    requires start % PAGE == 0 && i < size && lo <= start + i && Covered(pages, lo, start + i)
    ensures NearlyCovered(pages + Touched(start, i, size), lo, start + size)
  {
    forall a | lo <= a < start + size && a / PAGE < (start + size - 1) / PAGE
      ensures a / PAGE in pages + Touched(start, i, size)
    {
      if a < start + i {
        assert a / PAGE in pages;
      } else {
        var first, p := (start + i) / PAGE, a / PAGE;
        TouchedPages(start, i, size, p);
        assert (p - first) * PAGE + i + start < p * PAGE + PAGE <= start + size - 1;
      }
    }
  }

  lemma StillNearlyCovered(pages: set<nat>, all: set<nat>, lo: nat, start: nat, i: nat, size: nat)
    requires start % PAGE == 0 && i < size && lo <= start + i && Covered(pages, lo, start + i) && pages <= all
    ensures NearlyCovered(all + Touched(start, i, size), lo, start + size)
  {
    OnlyLastMissed(pages, lo, start, i, size);
    forall a | lo <= a < start + size && a / PAGE < (start + size - 1) / PAGE
      ensures a / PAGE in all + Touched(start, i, size)
    {
      assert a / PAGE in pages + Touched(start, i, size);
    }
  }

  /** The steps of expand reach every page of the new room exactly if the offset of the old end in its page does
      not push the last step past the page of the last byte. From a page boundary they always do. */
  lemma TouchedCovers(start: nat, i: nat, size: nat)
    requires start % PAGE == 0 && i < size
    ensures Covered(Touched(start, i, size), start + i, start + size) <==> StepsFit(i, size)
  {
    LastTouched(start, i, size);
    OnlyLastMissed({}, start + i, start, i, size);
    assert {} + Touched(start, i, size) == Touched(start, i, size);
    LastByteDecides(Touched(start, i, size), start + i, start + size, start + size);
  }

  /** Expanding leaves every page of the heap with a frame exactly if the last page had one or the steps reach it;
      they do from a page boundary. If no page behind the old end had one, the steps alone decide. */
  lemma ExpandCovers(pages: set<nat>, lo: nat, start: nat, i: nat, size: nat)
    requires start % PAGE == 0 && i < size && lo <= start && Covered(pages, lo, start + i)
    ensures var more := pages + Touched(start, i, size);
      && (Covered(more, lo, start + size) <==> (start + size - 1) / PAGE in more)
      && (Covered(more, lo, start + size) <==> (start + size - 1) / PAGE in pages || StepsFit(i, size))
      && (i % PAGE == 0 ==> Covered(more, lo, start + size))
      && ((forall p :: p in pages ==> p * PAGE < start + i) ==>
            (Covered(more, lo, start + size) <==> StepsFit(i, size)))
  {
    LastTouched(start, i, size);
    OnlyLastMissed(pages, lo, start, i, size);
    LastByteDecides(pages + Touched(start, i, size), lo, start + size, start + size);
    var last := (start + size - 1) / PAGE;
    if last in pages && last * PAGE < start + i {
      SamePageFits(start, i, size);
    }
  }

  /** When the last byte lies in the page of the old end, the first step reaches it. */
  lemma SamePageFits(start: nat, i: nat, size: nat)
    requires start % PAGE == 0 && i < size && (start + size - 1) / PAGE * PAGE < start + i
    ensures StepsFit(i, size)
  {
    var last := (start + size - 1) / PAGE;
    AlignedSum(start, i);
    assert last * PAGE <= start + i <= start + size - 1 < last * PAGE + PAGE;
    assert (start + i) / PAGE == last;
    assert (size - 1 - i) % PAGE == size - 1 - i;
  }

  /** A field of a header or footer can be read and written: it lies in at most two pages, and they are mapped. */
  predicate Mapped(pages: set<nat>, lo: nat, hi: nat)
    requires 0 < hi
  {
    lo / PAGE in pages && (hi - 1) / PAGE in pages
  }

  /** The pages that the loop of contract gives back: one for each PAGE-sized step from offset i down. */
  function Released(start: nat, i: int, size: nat): set<nat>
    decreases i - size
  {
    if size < i then {(start + i) / PAGE} + Released(start, i - PAGE, size) else {}
  }

  lemma {:induction false} ReleasedPages(start: nat, i: int, size: nat, p: nat)
    requires start % PAGE == 0
    ensures p in Released(start, i, size) <==>
      p <= (start + i) / PAGE && size < i - ((start + i) / PAGE - p) * PAGE
    decreases i - size
  {
    if size < i {
      ReleasedPages(start, i - PAGE, size, p);
      assert (start + (i - PAGE)) / PAGE == (start + i) / PAGE - 1;
    }
  }

  /** Contracting leaves every page below the new end with a frame, unless the new end lies lower in its page than
      the old end in its own, but not at its start, and more than a page in front of it. From a page boundary to
      another it always does. */
  lemma ContractCovers(pages: set<nat>, lo: nat, start: nat, length: nat, size: nat)
    requires start % PAGE == 0 && size <= length && lo <= start && Covered(pages, lo, start + length)
    ensures Covered(pages - Released(start, length - PAGE, size), lo, start + size) <==>
      !(size + PAGE < length && 0 < size % PAGE < length % PAGE)
  {
    var i, less := length - PAGE, pages - Released(start, length - PAGE, size);
    var first, top := start / PAGE, length / PAGE - 1;
    assert start == first * PAGE;
    assert (start + i) / PAGE == first + top && i == top * PAGE + length % PAGE;
    if size + PAGE < length && 0 < size % PAGE < length % PAGE {
      var q := size / PAGE;
      ReleasedPages(start, i, size, first + q);
      var a := (first + q) * PAGE;
      assert start <= a < start + size && a / PAGE == first + q && a / PAGE !in less;
    } else {
      forall a | lo <= a < start + size ensures a / PAGE in less {
        NotReleased(start, length, size, a);
      }
    }
  }

  /** A step that stays above the new end, in a page that begins below it. */
  lemma StepCrosses(length: nat, size: nat, q: nat)
    requires q * PAGE < size < q * PAGE + length % PAGE && q < length / PAGE
    ensures size + PAGE < length && 0 < size % PAGE < length % PAGE
  {
    assert size / PAGE == q;
  }

  lemma NotReleased(start: nat, length: nat, size: nat, a: nat)
    requires start % PAGE == 0 && size <= length && a < start + size
    requires !(size + PAGE < length && 0 < size % PAGE < length % PAGE)
    ensures a / PAGE !in Released(start, length - PAGE, size)
  {
    var q := a / PAGE - start / PAGE;
    ReleasedPages(start, length - PAGE, size, a / PAGE);
    assert (start + (length - PAGE)) / PAGE == start / PAGE + length / PAGE - 1;
    assert q * PAGE < size || q < 0;
    if q >= 0 && size < q * PAGE + length % PAGE && q < length / PAGE {
      StepCrosses(length, size, q);
    }
  }

  /** A contraction to a page boundary gives back the page at the new end exactly if the old end is not at a page
      boundary. From one page boundary to another that page stays, behind the heap. */
  lemma EndPage(start: nat, length: nat, size: nat)
    requires start % PAGE == 0 && size % PAGE == 0 && size <= length
    ensures (start + size) / PAGE in Released(start, length - PAGE, size) <==>
      length % PAGE != 0 && size + PAGE <= length
  {
    var first, q := start / PAGE, size / PAGE;
    assert start + size == (first + q) * PAGE;
    ReleasedPages(start, length - PAGE, size, first + q);
    assert (start + (length - PAGE)) / PAGE == first + length / PAGE - 1;
    assert length - PAGE == (length / PAGE - 1) * PAGE + length % PAGE;
  }

  /** After a contraction to a page boundary the size of the last hole can still be read, if its header lies below
      the new end or the old end was at a page boundary as well. */
  lemma SizeStays(pages: set<nat>, lo: nat, start: nat, length: nat, size: nat, a: nat)
    requires start % PAGE == 0 && size % PAGE == 0 && size <= length && Covered(pages, lo, start + length)
    requires lo <= start <= a <= start + size && a + OVERHEAD <= start + length
    requires length % PAGE == 0 || a + HEADER <= start + size
    ensures Mapped(pages - Released(start, length - PAGE, size), a + 8, a + HEADER)
  {
    ContractCovers(pages, lo, start, length, size);
    EndPage(start, length, size);
    var less := pages - Released(start, length - PAGE, size);
    forall x | a + 8 <= x < a + HEADER ensures x / PAGE in less {
      if start + size <= x {
        assert (start + size) % PAGE == 0 by { AlignedSum(start, size); }
        assert x / PAGE == (start + size) / PAGE;
        assert x / PAGE in pages;
      }
    }
  }

  // ---------------------------------------------------------------------------------------------
  // The look behind the end

  /** What comes of the look at a header at address a that is not one of the heap: it may not be mapped; and what
      looks like the header of a hole is not in the index, so that an assertion fails. */
  function LookBehind(m: seq<byte>, pages: set<nat>, a: nat): (o: Outcome)
    requires a + HEADER <= |m|
    ensures !o.Stray?
  {
    if !Mapped(pages, a, a + 4) then Fault
    else if Word(m, a) != MAGIC then Done
    else if !Mapped(pages, a + 4, a + 5) then Fault
    else if m[a + 4] == 0 then Done
    else if !Mapped(pages, a + 8, a + HEADER) then Fault
    else Panic
  }

  lemma LookKept(m: seq<byte>, m': seq<byte>, pages: set<nat>, lo: nat, hi: nat, a: nat)
    requires SameOutside(m, m', lo, hi) && hi <= a && a + HEADER <= |m|
    ensures LookBehind(m', pages, a) == LookBehind(m, pages, a)
  {
    HeaderBehind(m, m', lo, hi, a);
  }

  /** A header inside a heap that is covered can be read. */
  lemma LookInside(m: seq<byte>, pages: set<nat>, lo: nat, hi: nat, a: nat)
    requires Covered(pages, lo, hi) && lo <= a && a + HEADER <= hi && a + HEADER <= |m|
    ensures !LookBehind(m, pages, a).Fault?
    ensures LookBehind(m, pages, a).Panic? <==> Word(m, a) == MAGIC && m[a + 4] != 0
  {
  }

  /** At a page boundary the header lies in one page. */
  lemma LookAligned(m: seq<byte>, pages: set<nat>, a: nat)
    requires a % PAGE == 0 && a + HEADER <= |m|
    ensures LookBehind(m, pages, a).Fault? <==> a / PAGE !in pages
    ensures LookBehind(m, pages, a).Panic? <==> a / PAGE in pages && Word(m, a) == MAGIC && m[a + 4] != 0
  {
    assert forall x :: a <= x < a + HEADER ==> x / PAGE == a / PAGE;
  }

  /** When an extension from a page boundary ends inside a page, the page of the end is mapped with the last byte. */
  lemma EndInside(pages: set<nat>, start: nat, i: nat, size: nat, m: seq<byte>)
    requires start % PAGE == 0 && i % PAGE == 0 && i < size && Covered(pages, start, start + i)
    requires 0 < size % PAGE <= PAGE - HEADER && start + size + HEADER <= |m|
    ensures Covered(pages + Touched(start, i, size), start, start + size)
    ensures !LookBehind(m, pages + Touched(start, i, size), start + size).Fault?
  {
    ExpandCovers(pages, start, start, i, size);
    AlignedSum(start, size);
    var more, last := pages + Touched(start, i, size), (start + size - 1) / PAGE;
    assert last in more;
    assert start + size == last * PAGE + size % PAGE;
    assert forall x :: start + size <= x < start + size + HEADER ==> x / PAGE == last;
  }

  /** The first of two extensions begins at a page boundary, and no page behind the heap is mapped. */
  lemma ExtendedTwice(pages: set<nat>, start: nat, i: nat, size: nat, size': nat)
    requires start % PAGE == 0 && i % PAGE == 0 && i < size < size' && Covered(pages, start, start + i)
    requires forall p :: p in pages ==> p * PAGE < start + i
    ensures var once := pages + Touched(start, i, size);
      && Covered(once, start, start + size)
      && ((start + size' - 1) / PAGE in once + Touched(start, size, size') <==> StepsFit(size, size'))
  {
    ExpandCovers(pages, start, start, i, size);
    var once := pages + Touched(start, i, size);
    forall p | p in once ensures p * PAGE < start + size {
      if p in Touched(start, i, size) {
        NoneTouchedBehind(start, i, size, p);
      }
    }
    ExpandCovers(once, start, start, size, size');
  }
}
