/** Page entries, page tables and page directories of cpu/paging.h, and the walk from an address to its entry. */
module PageTables {
  import opened Machine
  import opened FrameBitmap

  const ENTRIES: nat := 1024
  const PAGES: nat := 0x10_0000  // pages of an address space

  datatype Page = Page(present: bool, rw: bool, user: bool, accessed: bool, dirty: bool, frame: nat)

  const BLANK := Page(false, false, false, false, false, 0)

  class PageTable {
    const pages: array<Page>
    const phys: nat        // the physical address at which the table lies
    ghost const home: nat  // its slot in the directories that refer to it

    constructor (phys: nat, ghost home: nat)
      ensures fresh(pages) && pages.Length == ENTRIES && this.phys == phys && this.home == home
      ensures forall s :: 0 <= s < ENTRIES ==> pages[s] == BLANK
    {
      this.phys, this.home := phys, home;
      pages := new Page[ENTRIES](_ => BLANK);
    }
  }

  class PageDirectory {
    const tables: array<PageTable?>
    const tablesPhysical: array<nat>

    constructor ()
      ensures fresh(tables) && fresh(tablesPhysical)
      ensures tables.Length == ENTRIES && tablesPhysical.Length == ENTRIES
      ensures forall i :: 0 <= i < ENTRIES ==> tables[i] == null && tablesPhysical[i] == 0
    {
      tables := new PageTable?[ENTRIES](_ => null);
      tablesPhysical := new nat[ENTRIES](_ => 0);
    }

    /** Every table stands in its own slot, so no table stands in two. Each physical address is that of the
        table, with the flags PRESENT, RW and USER_MODE. */
    ghost predicate Valid()
      reads this, tables, tablesPhysical
    {
      && tables.Length == ENTRIES && tablesPhysical.Length == ENTRIES
      && forall i :: 0 <= i < ENTRIES && tables[i] != null ==>
           var t := tables[i] as PageTable;
           t.home == i && t.pages.Length == ENTRIES && tablesPhysical[i] == Or7(t.phys)
    }

    /** Fills a slot. */
    method Put(i: nat, t: PageTable, physical: nat)
      requires Valid() && i < ENTRIES && t.home == i && t.pages.Length == ENTRIES && physical == Or7(t.phys)
      modifies tables, tablesPhysical
      ensures Valid() && tables[i] == t
      ensures forall j :: 0 <= j < ENTRIES && j != i ==> tables[j] == old(tables[j])
    {
      tables[i] := t;
      tablesPhysical[i] := physical;
    }

    /** Where the entry of an address is. */
    ghost function Walk(address: nat): (PageTable?, nat)
      requires Valid() && address < 0x1_0000_0000
      reads this, tables, tablesPhysical
    {
      (tables[address / PAGE / ENTRIES], address / PAGE % ENTRIES)
    }

    /** Two addresses share an entry exactly if they share a page: the upper 10 and the middle 10 bits of an
        address together number its page. */
    lemma WalkSeparates(a: nat, b: nat)
      requires Valid() && a < 0x1_0000_0000 && b < 0x1_0000_0000 && Walk(a).0 != null && Walk(b).0 != null
      ensures Walk(a) == Walk(b) <==> a / PAGE == b / PAGE
    {
      if Walk(a) == Walk(b) {
        var t := Walk(a).0 as PageTable;
        assert t.home == a / PAGE / ENTRIES == b / PAGE / ENTRIES;
      }
    }
  }

  /** Sets the three lowest bits. */
  function Or7(x: nat): nat {
    x / 8 * 8 + 7
  }

  /** PRESENT, RW and USER_MODE are set afterwards, and the other bits are as they were. */
  lemma FlagsGoOn(x: nat, i: nat)
    ensures Bit(Or7(x), i) <==> i < 3 || Bit(x, i)
  {
    assert Or7(x) / 2 / 2 / 2 == x / 8 == x / 2 / 2 / 2;
    if i >= 3 {
      EighthBit(Or7(x), i);
      EighthBit(x, i);
    } else if i > 0 {
      assert Bit(Or7(x), 1) <==> Bit(Or7(x) / 2, 0);
      assert Bit(Or7(x), 2) <==> Bit(Or7(x) / 2, 1) <==> Bit(Or7(x) / 2 / 2, 0);
    }
  }

  lemma EighthBit(x: nat, i: nat)
    requires i >= 3
    ensures Bit(x, i) <==> Bit(x / 2 / 2 / 2, i - 3)
  {
    assert Bit(x, i) <==> Bit(x / 2, i - 1);
    assert Bit(x / 2, i - 1) <==> Bit(x / 2 / 2, i - 2);
  }

  /** Clears the twelve lowest bits. */
  function PageBase(x: nat): nat {
    x / PAGE * PAGE
  }

  /** The address in a directory entry is found again under the flags exactly if the table is page-aligned. */
  lemma FlagsComeOff(x: nat)
    ensures PageBase(Or7(x)) == x <==> x % PAGE == 0
  {
    var q := x / PAGE;
    if x % PAGE == 0 {
      assert x == q * 512 * 8;
      assert Or7(x) == q * PAGE + 7;
    }
  }
}
