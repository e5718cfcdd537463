/** The mapping loops of initialise_paging in cpu/paging.c, with the placement allocator of cpu/kheap.c that
    moves the end of used memory while the loop that maps used memory is running. */
module PagingBoot {
  import opened Machine
  import opened PageTables
  import opened Pager
  import FrameOwnership

  const KHEAP_START: nat := 0xC000_0000
  const KHEAP_INITIAL_SIZE: nat := 0x10_0000

  /** The first page under the kernel heap and the number of pages there. */
  const HEAP_PAGE: nat := KHEAP_START / PAGE
  const HEAP_PAGES: nat := KHEAP_INITIAL_SIZE / PAGE

  class Placement {
    var address: nat

    constructor (address: nat)
      ensures this.address == address
    {
      this.address := address;
    }

    /** kmalloc_int before there is a heap. An address that is aligned already is moved on all the same. */
    method Kmalloc(size: nat, align: bool) returns (phys: nat)
      modifies this
      ensures old(address) <= phys <= old(address) + PAGE && address == phys + size
      ensures align && old(address) >= PAGE ==> phys % PAGE == 0 && old(address) < phys
      ensures !align ==> phys == old(address)
    {
      if align && address / PAGE * PAGE != 0 {
        address := address / PAGE * PAGE;
        address := address + PAGE;
      }
      phys := address;
      address := address + size;
    }
  }

  /** Makes the table for slot idx of the directory. */
  method MakeTable(g: Pager, end: Placement, idx: nat, dir: PageDirectory) returns (table: PageTable)
    requires g.Shaped() && dir.Valid() && g.Knows(dir)
    requires idx < ENTRIES && dir.tables[idx] == null && PAGE <= end.address
    modifies g`made, end, dir.tables, dir.tablesPhysical
    ensures g.Shaped() && dir.Valid() && g.Knows(dir)
    ensures g.made == old(g.made) + [table] && dir.tables[..] == old(dir.tables[..])[idx := table]
    ensures fresh(table) && fresh(table.pages) && Blank(table) && table.home == idx
    ensures table.phys % PAGE == 0 && PageBase(dir.tablesPhysical[idx]) == table.phys
    ensures old(end.address) < table.phys <= old(end.address) + PAGE && end.address == table.phys + PAGE
  {
    var tmp := end.Kmalloc(PAGE, true);
    table := g.NewTable(tmp, idx);
    FlagsComeOff(tmp);
    dir.Put(idx, table, Or7(tmp));
  }

  ghost predicate Blank(table: PageTable)
    reads table.pages
  {
    table.pages.Length == ENTRIES && forall s :: 0 <= s < ENTRIES ==> table.pages[s] == BLANK
  }

  /** get_page_ptr_in_page_table, with the tables that it makes before there is a heap. Making one changes no
      other slot, so whatever could be looked up before gives the same answer after. */
  method GetPage(g: Pager, end: Placement, address: nat, make: bool, dir: PageDirectory)
    returns (table: PageTable?, slot: nat)
    requires g.Shaped() && dir.Valid() && g.Knows(dir) && address < WORD && PAGE <= end.address
    modifies g`made, end, dir.tables, dir.tablesPhysical
    ensures g.Shaped() && dir.Valid() && g.Knows(dir)
    ensures (table, slot) == dir.Walk(address)
    ensures table != null <==> make || old(dir.Walk(address).0) != null
    ensures table == null || old(dir.Walk(address).0) != null ==>
      g.made == old(g.made) && end.address == old(end.address) && dir.tables[..] == old(dir.tables[..])
    ensures table != null && old(dir.Walk(address).0) == null ==>
      && g.made == old(g.made) + [table] && fresh(table) && fresh(table.pages) && Blank(table)
      && table.home == address / PAGE / ENTRIES
      && dir.tables[..] == old(dir.tables[..])[address / PAGE / ENTRIES := table]
      && table.phys % PAGE == 0 && PageBase(dir.tablesPhysical[address / PAGE / ENTRIES]) == table.phys
      && old(end.address) < table.phys <= old(end.address) + PAGE && end.address == table.phys + PAGE
  {
    var page := address / PAGE;
    var idx := page / ENTRIES;
    slot := page % ENTRIES;
    if dir.tables[idx] != null {
      table := dir.tables[idx];
    } else if make {
      table := MakeTable(g, end, idx, dir);
    } else {
      table := null;
    }
  }

  /** The entry of a page when pages below n are mapped to themselves and h heap pages to the frames after them. */
  function Expected(page: nat, n: nat, h: nat): Page {
    if page < n then Page(true, false, true, false, false, page)
    else if HEAP_PAGE <= page < HEAP_PAGE + h then Page(true, false, true, false, false, n + (page - HEAP_PAGE))
    else BLANK
  }

  ghost predicate TableIs(t: PageTable, n: nat, h: nat)
    reads t.pages
  {
    t.pages.Length == ENTRIES && forall s :: 0 <= s < ENTRIES ==> t.pages[s] == Expected(t.home * ENTRIES + s, n, h)
  }

  /** So far, pages below n are mapped to themselves, h heap pages to the next frames, and nothing else is mapped. */
  ghost predicate Mapping(g: Pager, dir: PageDirectory, n: nat, h: nat)
    reads g, g.frames, dir, dir.tables, dir.tablesPhysical, set k | 0 <= k < |g.made| :: g.made[k].pages
  {
    && g.Shaped() && dir.Valid() && g.Knows(dir) && n <= HEAP_PAGE && h <= HEAP_PAGES
    && (forall f :: f in g.Used() <==> 0 <= f < n + h)
    && (forall k :: 0 <= k < |g.made| ==>
          g.made[k].home < ENTRIES && dir.tables[g.made[k].home] == g.made[k] && TableIs(g.made[k], n, h))
    && (forall p :: 0 <= p < n ==> dir.tables[p / ENTRIES] != null)
    && (h > 0 ==> dir.tables[HEAP_PAGE / ENTRIES] != null)
  }

  lemma MappingShape(g: Pager, dir: PageDirectory, n: nat, h: nat)
    requires Mapping(g, dir, n, h)
    ensures dir.tables.Length == ENTRIES
  {
  }

  /** A new table in an empty slot is as expected. */
  method TableFor(g: Pager, end: Placement, page: nat, dir: PageDirectory, ghost n: nat, ghost h: nat)
    returns (table: PageTable, slot: nat)
    requires Mapping(g, dir, n, h) && page < PAGES && PAGE <= end.address
    modifies g`made, end, dir.tables, dir.tablesPhysical
    ensures Mapping(g, dir, n, h) && slot == page % ENTRIES && table == dir.tables[page / ENTRIES]
    ensures forall i :: 0 <= i < ENTRIES && i != page / ENTRIES ==> dir.tables[i] == old(dir.tables[i])
    ensures old(g.made) <= g.made
    ensures old(dir.tables[page / ENTRIES]) != null ==> end.address == old(end.address) && g.made == old(g.made)
    ensures old(dir.tables[page / ENTRIES]) == null ==>
      && old(end.address) < end.address <= old(end.address) + 2 * PAGE && g.made == old(g.made) + [table]
      && fresh(table.pages) && table.phys % PAGE == 0 && table.phys + PAGE == end.address
  {
    assert page * PAGE / PAGE == page;
    ghost var made, was := g.made, dir.tables[..];
    var t;
    t, slot := GetPage(g, end, page * PAGE, true, dir);
    table := t;
    if |g.made| > |made| {
      NothingExpected(was, page / ENTRIES, n, h);
      forall s | 0 <= s < ENTRIES ensures table.pages[s] == Expected(table.home * ENTRIES + s, n, h) {
        assert table.pages[s] == BLANK && (table.home * ENTRIES + s) / ENTRIES == table.home;
      }
    }
  }

  /** No page under an empty slot is expected to be mapped. */
  lemma NothingExpected(tables: seq<PageTable?>, i: nat, n: nat, h: nat)
    requires |tables| == ENTRIES && i < ENTRIES && tables[i] == null && h <= HEAP_PAGES && n <= HEAP_PAGE
    requires forall p :: 0 <= p < n ==> tables[p / ENTRIES] != null
    requires h > 0 ==> tables[HEAP_PAGE / ENTRIES] != null
    ensures forall p :: p / ENTRIES == i && p >= 0 ==> Expected(p, n, h) == BLANK
  {
  }

  ghost predicate Next(page: nat, n: nat, h: nat) {
    (h == 0 && page == n < HEAP_PAGE) || (page == HEAP_PAGE + h && n <= HEAP_PAGE && h < HEAP_PAGES)
  }

  /** The new counts of mapped pages. */
  function More(page: nat, n: nat, h: nat): (nat, nat) {
    if page < HEAP_PAGE then (n + 1, h) else (n, h + 1)
  }

  /** Mapping the page that is next changes what is expected of that page alone. */
  lemma ExpectedNext(page: nat, n: nat, h: nat, p: nat)
    requires Next(page, n, h)
    ensures Expected(p, More(page, n, h).0, More(page, n, h).1) ==
      if p == page then Page(true, false, true, false, false, n + h) else Expected(p, n, h)
  {
  }

  /** A table with the entry of the page set, or without one, is as expected next. */
  lemma TableNext(t: PageTable, was: seq<Page>, page: nat, n: nat, h: nat)
    requires Next(page, n, h) && t.pages.Length == ENTRIES == |was|
    requires forall s :: 0 <= s < ENTRIES ==> was[s] == Expected(t.home * ENTRIES + s, n, h)
    requires t.pages[..] ==
      if t.home == page / ENTRIES then was[page % ENTRIES := Page(true, false, true, false, false, n + h)] else was
    ensures TableIs(t, More(page, n, h).0, More(page, n, h).1)
  {
    forall s | 0 <= s < ENTRIES
      ensures t.pages[s] == Expected(t.home * ENTRIES + s, More(page, n, h).0, More(page, n, h).1)
    {
      ExpectedNext(page, n, h, t.home * ENTRIES + s);
      assert t.pages[..][s] == t.pages[s] && was[s] == Expected(t.home * ENTRIES + s, n, h);
    }
  }

  /** The entry of the page that is next gets the next free frame. */
  method Grant(g: Pager, table: PageTable, page: nat, dir: PageDirectory, ghost n: nat, ghost h: nat, ghost k: nat)
    requires Mapping(g, dir, n, h) && n + h < g.nframes && Next(page, n, h)
    requires k < |g.made| && g.made[k] == table == dir.tables[page / ENTRIES]
    modifies g.frames, table.pages
    ensures Mapping(g, dir, More(page, n, h).0, More(page, n, h).1)
  {
    ghost var was := table.pages[..];
    ghost var n', h' := More(page, n, h).0, More(page, n, h).1;
    assert was[page % ENTRIES] == Expected(page, n, h) == BLANK;
    forall l | 0 <= l < |g.made| && l != k ensures TableIs(g.made[l], n', h') && g.made[l].pages != table.pages {
      assert g.made[l].home != page / ENTRIES;
      TableNext(g.made[l], g.made[l].pages[..], page, n, h);
    }
    g.AllocNext(table, page % ENTRIES, false, false, k, n + h);
    TableNext(table, was, page, n, h);
  }

  /** One round of a mapping loop: the table of the page, then the next free frame for it. */
  method MapPage(g: Pager, end: Placement, page: nat, dir: PageDirectory, ghost n: nat, ghost h: nat)
    requires Mapping(g, dir, n, h) && PAGE <= end.address && n + h < g.nframes && Next(page, n, h)
    modifies g`made, g.frames, end, dir.tables, dir.tablesPhysical, set k | 0 <= k < |g.made| :: g.made[k].pages
    ensures Mapping(g, dir, More(page, n, h).0, More(page, n, h).1)
    ensures old(g.made) <= g.made
    ensures forall i :: 0 <= i < ENTRIES && i != page / ENTRIES ==> dir.tables[i] == old(dir.tables[i])
    ensures old(dir.tables[page / ENTRIES]) != null ==> end.address == old(end.address) && g.made == old(g.made)
    ensures old(dir.tables[page / ENTRIES]) == null ==>
      && old(end.address) < end.address <= old(end.address) + 2 * PAGE && |g.made| == old(|g.made|) + 1
      && fresh(g.made[|g.made| - 1].pages)
      && g.made[|g.made| - 1].phys % PAGE == 0 && g.made[|g.made| - 1].phys + PAGE == end.address
  {
    var table, slot := TableFor(g, end, page, dir, n, h);
    ghost var k :| 0 <= k < |g.made| && g.made[k] == table;
    Grant(g, table, page, dir, n, h, k);
  }

  // ---------------------------------------------------------------------------------------------
  // The loops

  /** Nothing mapped, no table made, no frame in use. */
  ghost predicate Untouched(g: Pager, dir: PageDirectory)
    reads g, g.frames, dir, dir.tables, dir.tablesPhysical
  {
    && g.Shaped() && dir.Valid() && g.Knows(dir) && g.made == [] && g.Used() == {}
    && forall i :: 0 <= i < ENTRIES ==> dir.tables[i] == null
  }

  /** The tables made so far are pages below the end of used memory. */
  ghost predicate TablesBelow(g: Pager, end: Placement)
    reads g, end
  {
    forall k :: 0 <= k < |g.made| ==> g.made[k].phys % PAGE == 0 && g.made[k].phys + PAGE <= end.address
  }

  /** The first loop: tables for the pages of the kernel heap, before anything is mapped. */
  method MakeHeapTables(g: Pager, end: Placement, dir: PageDirectory)
    requires Untouched(g, dir) && PAGE <= end.address
    modifies g`made, end, dir.tables, dir.tablesPhysical
    ensures Mapping(g, dir, 0, 0) && |g.made| == 1 && fresh(g.made[0].pages) && TablesBelow(g, end)
    ensures forall i :: 0 <= i < ENTRIES ==> (dir.tables[i] != null <==> i == HEAP_PAGE / ENTRIES)
    ensures PAGE <= end.address <= old(end.address) + 2 * PAGE
  {
    var i := KHEAP_START;
    while i < KHEAP_START + KHEAP_INITIAL_SIZE
      invariant KHEAP_START <= i <= KHEAP_START + KHEAP_INITIAL_SIZE && i % PAGE == 0
      invariant Mapping(g, dir, 0, 0) && PAGE <= end.address && TablesBelow(g, end)
      invariant i == KHEAP_START ==> g.made == [] && end.address == old(end.address)
      invariant i > KHEAP_START ==>
        |g.made| == 1 && fresh(g.made[0].pages) && end.address <= old(end.address) + 2 * PAGE
      invariant forall j :: 0 <= j < ENTRIES ==>
        (dir.tables[j] != null <==> j == HEAP_PAGE / ENTRIES && i > KHEAP_START)
    {
      var table, slot := TableFor(g, end, i / PAGE, dir, 0, 0);
      i := i + PAGE;
    }
  }

  /** How many tables n pages from 0 on need. */
  function TablesFor(n: nat): nat {
    (n + ENTRIES - 1) / ENTRIES
  }

  /** Memory suffices for the tables, wherever the placement allocator puts them, and for the kernel heap. */
  predicate Enough(base: nat, nframes: nat) {
    nframes <= HEAP_PAGE && base + 2 * PAGE * (2 + nframes / ENTRIES) + PAGE + KHEAP_INITIAL_SIZE <= nframes * PAGE
  }

  /** Where used memory can end when n pages are mapped, and that it cannot outrun the memory there is. */
  lemma EndBound(base: nat, nframes: nat, n: nat, end: nat)
    requires Enough(base, nframes) && end <= base + 2 * PAGE * (1 + TablesFor(n)) && n + HEAP_PAGES <= nframes
    ensures n * PAGE < end + PAGE ==> n + HEAP_PAGES < nframes && n < HEAP_PAGE
  {
    assert TablesFor(n) <= 1 + nframes / ENTRIES;
  }

  /** The tables in place when n pages are mapped. */
  ghost predicate TablesUpTo(dir: PageDirectory, n: nat)
    reads dir, dir.tables
  {
    dir.tables.Length == ENTRIES
    && forall i :: 0 <= i < ENTRIES ==> (dir.tables[i] != null <==> i * ENTRIES < n || i == HEAP_PAGE / ENTRIES)
  }

  /** What the second loop keeps: a table serves 1024 pages and moves the end of used memory by two at most. */
  ghost predicate Growing(g: Pager, end: Placement, dir: PageDirectory, base: nat, n: nat)
    reads g, end, dir, dir.tables
  {
    && TablesUpTo(dir, n) && TablesBelow(g, end) && |g.made| == 1 + TablesFor(n)
    && PAGE <= end.address <= base + 2 * PAGE * |g.made|
  }

  lemma RoomForHeap(base: nat, nframes: nat)
    requires Enough(base, nframes)
    ensures HEAP_PAGES <= nframes
  {
  }

  lemma RoomLeft(g: Pager, end: Placement, dir: PageDirectory, base: nat, n: nat)
    requires Growing(g, end, dir, base, n) && Enough(base, g.nframes) && n + HEAP_PAGES <= g.nframes
    ensures n * PAGE < end.address + PAGE ==> n + HEAP_PAGES < g.nframes && n < HEAP_PAGE
  {
    EndBound(base, g.nframes, n, end.address);
  }

  /** One round of it. */
  method MapIdentity(g: Pager, end: Placement, page: nat, dir: PageDirectory, ghost base: nat)
    requires Mapping(g, dir, page, 0) && Growing(g, end, dir, base, page)
    requires page < g.nframes && page < HEAP_PAGE
    modifies g`made, g.frames, end, dir.tables, dir.tablesPhysical, set k | 0 <= k < |g.made| :: g.made[k].pages
    ensures Mapping(g, dir, page + 1, 0) && Growing(g, end, dir, base, page + 1)
    ensures old(end.address) <= end.address
    ensures old(g.made) <= g.made && forall k :: |old(g.made)| <= k < |g.made| ==> fresh(g.made[k].pages)
  {
    hide Mapping;
    assert dir.tables[page / ENTRIES] == null <==> page % ENTRIES == 0;
    MapPage(g, end, page, dir, page, 0);
    assert TablesFor(page + 1) == TablesFor(page) + if page % ENTRIES == 0 then 1 else 0;
  }

  /** The second loop: pages are mapped to themselves up to a page behind the end of used memory, which the tables
      made on the way move on. It stops at the first page that is not below that bound. */
  method MapUsedMemory(g: Pager, end: Placement, dir: PageDirectory, ghost base: nat) returns (n: nat)
    requires Mapping(g, dir, 0, 0) && Growing(g, end, dir, base, 0) && Enough(base, g.nframes)
    modifies g`made, g.frames, end, dir.tables, dir.tablesPhysical, set k | 0 <= k < |g.made| :: g.made[k].pages
    ensures Mapping(g, dir, n, 0) && Growing(g, end, dir, base, n)
    ensures end.address + PAGE <= n * PAGE && n + HEAP_PAGES <= g.nframes
    ensures n > 0 && (n - 1) * PAGE < end.address + PAGE
    ensures old(g.made) <= g.made && forall k :: |old(g.made)| <= k < |g.made| ==> fresh(g.made[k].pages)
  {
    hide Mapping, Growing, Enough;
    RoomForHeap(base, g.nframes);
    var i := 0;
    n := 0;
    while i < end.address + PAGE
      invariant i == n * PAGE && n + HEAP_PAGES <= g.nframes
      invariant n > 0 ==> (n - 1) * PAGE < end.address + PAGE
      invariant Mapping(g, dir, n, 0) && Growing(g, end, dir, base, n)
      invariant old(g.made) <= g.made && forall k :: |old(g.made)| <= k < |g.made| ==> fresh(g.made[k].pages)
      decreases g.nframes - n
    {
      RoomLeft(g, end, dir, base, n);
      MapIdentity(g, end, i / PAGE, dir, base);
      i := i + PAGE;
      n := n + 1;
    }
  }

  /** One round of the third loop. */
  method MapHeapPage(g: Pager, end: Placement, page: nat, dir: PageDirectory, ghost n: nat, ghost h: nat)
    requires Mapping(g, dir, n, h) && PAGE <= end.address && n + h < g.nframes && h < HEAP_PAGES
    requires page == HEAP_PAGE + h && dir.tables[HEAP_PAGE / ENTRIES] != null
    modifies g`made, g.frames, end, dir.tables, dir.tablesPhysical, set k | 0 <= k < |g.made| :: g.made[k].pages
    ensures Mapping(g, dir, n, h + 1) && end.address == old(end.address) && g.made == old(g.made)
    ensures dir.tables[HEAP_PAGE / ENTRIES] != null
  {
    assert page / ENTRIES == HEAP_PAGE / ENTRIES;
    MapPage(g, end, page, dir, n, h);
  }

  /** The third loop: frames for the pages of the kernel heap. Their table is there already, so used memory ends
      where it did. */
  method MapHeap(g: Pager, end: Placement, dir: PageDirectory, ghost n: nat)
    requires Mapping(g, dir, n, 0) && PAGE <= end.address && n + HEAP_PAGES <= g.nframes
    requires dir.tables[HEAP_PAGE / ENTRIES] != null
    modifies g`made, g.frames, end, dir.tables, dir.tablesPhysical, set k | 0 <= k < |g.made| :: g.made[k].pages
    ensures Mapping(g, dir, n, HEAP_PAGES) && end.address == old(end.address) && g.made == old(g.made)
  {
    hide Mapping;
    MappingShape(g, dir, n, 0);
    var i := KHEAP_START;
    ghost var h := 0;
    while i < KHEAP_START + KHEAP_INITIAL_SIZE
      invariant 0 <= h <= HEAP_PAGES && i == KHEAP_START + h * PAGE
      invariant Mapping(g, dir, n, h) && end.address == old(end.address) && g.made == old(g.made)
      invariant dir.tables[HEAP_PAGE / ENTRIES] != null
      decreases HEAP_PAGES - h
    {
      MapHeapPage(g, end, i / PAGE, dir, n, h);
      i := i + PAGE;
      h := h + 1;
    }
  }

  /** The entry of a page. */
  ghost predicate EntryIs(dir: PageDirectory, page: nat, e: Page)
    reads dir.tables, if page / ENTRIES < dir.tables.Length then PagesOf(dir.tables[page / ENTRIES]) else {}
  {
    && page / ENTRIES < dir.tables.Length && dir.tables[page / ENTRIES] != null
    && page % ENTRIES < dir.tables[page / ENTRIES].pages.Length
    && dir.tables[page / ENTRIES].pages[page % ENTRIES] == e
  }

  /** A page without an entry, or with a blank one. */
  ghost predicate Unmapped(dir: PageDirectory, page: nat)
    reads dir.tables, if page / ENTRIES < dir.tables.Length then PagesOf(dir.tables[page / ENTRIES]) else {}
  {
    page / ENTRIES < dir.tables.Length && (dir.tables[page / ENTRIES] == null || EntryIs(dir, page, BLANK))
  }

  lemma NothingMapped(g: Pager, dir: PageDirectory, n: nat, h: nat, page: nat)
    requires Mapping(g, dir, n, h) && n <= page < PAGES && !(HEAP_PAGE <= page < HEAP_PAGE + h)
    ensures Unmapped(dir, page)
  {
    if dir.tables[page / ENTRIES] != null {
      var t := dir.tables[page / ENTRIES] as PageTable;
      var k :| 0 <= k < |g.made| && g.made[k] == t;
      assert TableIs(t, n, h);
      assert t.pages[page % ENTRIES] == Expected(t.home * ENTRIES + page % ENTRIES, n, h);
    }
  }

  lemma MappedAsExpected(g: Pager, dir: PageDirectory, n: nat, h: nat, page: nat)
    requires Mapping(g, dir, n, h) && (page < n || HEAP_PAGE <= page < HEAP_PAGE + h)
    ensures EntryIs(dir, page, Expected(page, n, h))
  {
    var t := dir.tables[page / ENTRIES] as PageTable;
    var k :| 0 <= k < |g.made| && g.made[k] == t;
    assert TableIs(t, n, h);
    assert t.pages[page % ENTRIES] == Expected(t.home * ENTRIES + page % ENTRIES, n, h);
  }

  lemma HeldAsExpected(g: Pager, dir: PageDirectory, n: nat, h: nat, e: Slot)
    requires Mapping(g, dir, n, h) && e.0 < |g.made| && e.1 < ENTRIES
    ensures g.made[e.0].pages[e.1].frame == Expected(g.made[e.0].home * ENTRIES + e.1, n, h).frame
  {
    assert TableIs(g.made[e.0], n, h);
  }

  lemma HeldOnce(g: Pager, dir: PageDirectory, n: nat, h: nat, e: Slot, e': Slot)
    requires Mapping(g, dir, n, h) && e.0 < |g.made| && e.1 < ENTRIES && e'.0 < |g.made| && e'.1 < ENTRIES
    requires g.made[e.0].pages[e.1].frame == g.made[e'.0].pages[e'.1].frame != 0
    ensures e == e'
  {
    HeldAsExpected(g, dir, n, h, e);
    HeldAsExpected(g, dir, n, h, e');
    var p, p' := g.made[e.0].home * ENTRIES + e.1, g.made[e'.0].home * ENTRIES + e'.1;
    SamePage(p, p', n, h);
    assert g.made[e.0].home == p / ENTRIES && g.made[e'.0].home == p' / ENTRIES;
  }

  lemma HeldBy(g: Pager, dir: PageDirectory, n: nat, h: nat, f: nat) returns (e: Slot)
    requires Mapping(g, dir, n, h) && 0 < f < n + h
    ensures e.0 < |g.made| && e.1 < ENTRIES && g.made[e.0].pages[e.1].frame == f
  {
    var page := if f < n then f else HEAP_PAGE + (f - n);
    MappedAsExpected(g, dir, n, h, page);
    var k :| 0 <= k < |g.made| && g.made[k] == dir.tables[page / ENTRIES];
    e := (k, page % ENTRIES);
  }

  /** After the loops every frame in use has exactly one owner, apart from frame 0. */
  lemma MappingOwned(g: Pager, dir: PageDirectory, n: nat, h: nat)
    requires Mapping(g, dir, n, h) && n > 0
    ensures g.Valid()
  {
    var held := g.Held();
    forall e | e in held ensures held[e] == 0 || held[e] in g.Used() {
      HeldAsExpected(g, dir, n, h, e);
    }
    forall f | f in g.Used() && f != 0 ensures exists e :: e in held && held[e] == f {
      var e := HeldBy(g, dir, n, h, f);
      assert e in held && held[e] == f;
    }
    forall e, e' | e in held && e' in held && held[e] == held[e'] != 0 ensures e == e' {
      HeldOnce(g, dir, n, h, e, e');
    }
  }

  lemma SamePage(p: nat, q: nat, n: nat, h: nat)
    requires n <= HEAP_PAGE && Expected(p, n, h).frame == Expected(q, n, h).frame != 0
    ensures p == q
  {
  }

  /** The entry of a page of the kernel heap, when the frames below n are those of used memory. */
  function HeapEntry(n: nat, page: nat): Page
    requires HEAP_PAGE <= page
  {
    Page(true, false, true, false, false, n + (page - HEAP_PAGE))
  }

  /** Frames in use from 0 up to some number leave the others free. */
  lemma FreeAbove(g: Pager, n: nat)
    requires g.Shaped() && n <= g.nframes && forall f :: f in g.Used() <==> 0 <= f < n
    ensures g.Spare() == g.nframes - n
  {
    assert g.Used() == FrameOwnership.FramesBelow(n);
  }

  /** How far the loops get, in terms of where used memory ended before them. */
  lemma MappedFew(g: Pager, end: Placement, dir: PageDirectory, base: nat, n: nat)
    requires Growing(g, end, dir, base, n) && n > 0 && (n - 1) * PAGE < end.address + PAGE
    ensures n * PAGE < base + 2 * PAGE * (2 + TablesFor(n))
  {
  }

  /** The mapping part of initialise_paging.

      When it is done, every page up to the end of used memory and one page beyond is mapped to the frame of the
      same number, among them the pages that hold the tables made on the way, and no page beyond those; the pages of
      the kernel heap have the frames after those; the frames in use are owned by exactly one entry each, apart from
      frame 0; and all other frames are free. */
  method InitialisePaging(g: Pager, end: Placement, dir: PageDirectory) returns (n: nat)
    requires Untouched(g, dir) && PAGE <= end.address && Enough(end.address, g.nframes)
    modifies g`made, g.frames, end, dir.tables, dir.tablesPhysical
    ensures g.Valid() && dir.Valid() && g.Knows(dir)
    ensures end.address + PAGE <= n * PAGE
    ensures n > 0 && (n - 1) * PAGE < end.address + PAGE
    ensures n * PAGE < old(end.address) + 2 * PAGE * (2 + TablesFor(n))
    ensures g.Spare() == g.nframes - n - HEAP_PAGES
    ensures forall p :: n <= p < PAGES && !(HEAP_PAGE <= p < HEAP_PAGE + HEAP_PAGES) ==> Unmapped(dir, p)
    ensures forall p :: 0 <= p < n ==> EntryIs(dir, p, Page(true, false, true, false, false, p))
    ensures forall k :: 0 <= k < |g.made| ==> g.made[k].phys % PAGE == 0 && g.made[k].phys / PAGE < n
    ensures forall p :: HEAP_PAGE <= p < HEAP_PAGE + HEAP_PAGES ==> EntryIs(dir, p, HeapEntry(n, p))
    ensures forall f :: f in g.Used() <==> 0 <= f < n + HEAP_PAGES
  {
    ghost var base := end.address;
    MakeHeapTables(g, end, dir);
    n := MapUsedMemory(g, end, dir, base);
    MappedFew(g, end, dir, base, n);
    MapHeap(g, end, dir, n);
    MappingOwned(g, dir, n, HEAP_PAGES);
    FreeAbove(g, n + HEAP_PAGES);
    forall p | n <= p < PAGES && !(HEAP_PAGE <= p < HEAP_PAGE + HEAP_PAGES) ensures Unmapped(dir, p) {
      NothingMapped(g, dir, n, HEAP_PAGES, p);
    }
    forall p | 0 <= p < n ensures EntryIs(dir, p, Page(true, false, true, false, false, p)) {
      MappedAsExpected(g, dir, n, HEAP_PAGES, p);
    }
    forall p | HEAP_PAGE <= p < HEAP_PAGE + HEAP_PAGES ensures EntryIs(dir, p, HeapEntry(n, p)) {
      MappedAsExpected(g, dir, n, HEAP_PAGES, p);
    }
  }
}
