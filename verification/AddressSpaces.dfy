/** What a program sees of cloned address spaces: every process reads what it and its ancestors wrote, and
    nothing that others wrote, except in the pages of the kernel, which all share.

    First the meaning, on plain maps from pages to contents; then the refinement by page tables. */
module AddressSpaces {
  import opened Machine
  import opened PageTables
  import opened PhysicalMemory
  import opened Pager
  import opened FrameOwnership

  // ---------------------------------------------------------------------------------------------
  // Meaning

  /** The words of every mapped page. */
  type View = map<nat, seq<nat>>

  datatype Event = Fork(parent: nat) | Store(space: nat, page: nat, word: nat, value: nat)

  datatype Write = Write(page: nat, word: nat, value: nat)

  predicate Mapped(v: View, page: nat, word: nat) {
    page in v && word < |v[page]|
  }

  function Written(v: View, w: Write): View {
    if Mapped(v, w.page, w.word) then
      var words: seq<nat> := v[w.page];
      var words': seq<nat> := words[w.word := w.value];
      v[w.page := words']
    else v
  }

  /** One event. A fork adds a space that looks like its parent's; a store changes the space that makes it or, in
      a kernel page, every space. */
  function After(kernel: set<nat>, vs: seq<View>, e: Event): seq<View>
    requires match e case Fork(parent) => parent < |vs| case Store(space, _, _, _) => space < |vs|
  {
    match e
    case Fork(parent) => vs + [vs[parent]]
    case Store(space, page, word, value) =>
      seq(|vs|, i requires 0 <= i < |vs| =>
        if i == space || page in kernel then Written(vs[i], Write(page, word, value)) else vs[i])
  }

  /** Every event concerns a space that exists when it happens; n of them exist at first. */
  predicate Sensible(n: nat, es: seq<Event>) {
    es == [] ||
    (Sensible(n, es[..|es| - 1]) &&
     match es[|es| - 1]
     case Fork(parent) => parent < Count(n, es[..|es| - 1])
     case Store(space, _, _, _) => space < Count(n, es[..|es| - 1]))
  }

  function Count(n: nat, es: seq<Event>): nat {
    if es == [] then n else Count(n, es[..|es| - 1]) + (if es[|es| - 1].Fork? then 1 else 0)
  }

  function Run(kernel: set<nat>, vs: seq<View>, es: seq<Event>): (r: seq<View>)
    requires Sensible(|vs|, es)
    ensures |r| == Count(|vs|, es)
  {
    if es == [] then vs else After(kernel, Run(kernel, vs, es[..|es| - 1]), es[|es| - 1])
  }

  /** The initial space from which space i descends. */
  function Root(n: nat, es: seq<Event>, i: nat): nat
    requires Sensible(n, es) && i < Count(n, es)
    decreases |es|
  {
    if es == [] then i
    else
      var before, e := es[..|es| - 1], es[|es| - 1];
      Root(n, before, if e.Fork? && i == Count(n, before) then e.parent else i)
  }

  /** The stores that space i has inherited, made itself, or shares because they went to the kernel. */
  function Lineage(kernel: set<nat>, n: nat, es: seq<Event>, i: nat): seq<Write>
    requires Sensible(n, es) && i < Count(n, es)
    decreases |es|
  {
    if es == [] then []
    else
      var before, e := es[..|es| - 1], es[|es| - 1];
      match e
      case Fork(parent) => Lineage(kernel, n, before, if i == Count(n, before) then parent else i)
      case Store(space, page, word, value) =>
        if i == space || page in kernel then Lineage(kernel, n, before, i) + [Write(page, word, value)]
        else Lineage(kernel, n, before, i)
  }

  function Patched(v: View, ws: seq<Write>): View {
    if ws == [] then v else Written(Patched(v, ws[..|ws| - 1]), ws[|ws| - 1])
  }

  /** Over any sequence of forks and stores, what a process sees is the space its family started with, changed by
      its lineage's stores and the kernel's, in order, and by no others. */
  lemma {:induction false} SeesItsLineage(kernel: set<nat>, vs: seq<View>, es: seq<Event>, i: nat)
    requires Sensible(|vs|, es) && i < Count(|vs|, es)
    ensures Root(|vs|, es, i) < |vs|
    ensures Run(kernel, vs, es)[i] == Patched(vs[Root(|vs|, es, i)], Lineage(kernel, |vs|, es, i))
    decreases |es|
  {
    if es != [] {
      var before, e := es[..|es| - 1], es[|es| - 1];
      match e
      case Fork(parent) =>
        SeesItsLineage(kernel, vs, before, if i == Count(|vs|, before) then parent else i);
      case Store(space, page, word, value) =>
        SeesItsLineage(kernel, vs, before, i);
        var ws := Lineage(kernel, |vs|, before, i);
        assert (ws + [Write(page, word, value)])[..|ws|] == ws;
    }
  }

  // ---------------------------------------------------------------------------------------------
  // Page tables

  /** The frame that a directory maps a page to, or 0. */
  ghost function FrameAt(d: PageDirectory, p: nat): nat
    reads d.tables, if p / ENTRIES < d.tables.Length then PagesOf(d.tables[p / ENTRIES]) else {}
  {
    if p / ENTRIES < d.tables.Length && d.tables[p / ENTRIES] != null
      && p % ENTRIES < d.tables[p / ENTRIES].pages.Length
    then d.tables[p / ENTRIES].pages[p % ENTRIES].frame else 0
  }

  function Contents(m: seq<nat>, f: nat): seq<nat> {
    if f * WORDS + WORDS <= |m| then FrameWords(m, f) else []
  }

  /** What can be read through a directory. */
  ghost function Look(d: PageDirectory, m: seq<nat>): View
    reads d.tables, set p | 0 <= p < PAGES && p / ENTRIES < d.tables.Length && d.tables[p / ENTRIES] != null ::
      d.tables[p / ENTRIES].pages
  {
    map p | 0 <= p < PAGES && FrameAt(d, p) != 0 :: Contents(m, FrameAt(d, p))
  }

  /** The frames behind it. */
  ghost function FramesOf(d: PageDirectory): set<nat>
    reads d.tables, set p | 0 <= p < PAGES && p / ENTRIES < d.tables.Length && d.tables[p / ENTRIES] != null ::
      d.tables[p / ENTRIES].pages
  {
    set p | 0 <= p < PAGES && FrameAt(d, p) != 0 :: FrameAt(d, p)
  }

  /** A clone shows what its source shows. */
  lemma CloneLooks(g: Pager, src: PageDirectory, kernel: PageDirectory, dir: PageDirectory, before: seq<PageTable>)
    requires src.Valid() && kernel.Valid() && dir.Valid() && g.SlotsCopied(src, kernel, dir, ENTRIES, before)
    ensures Look(dir, g.memory[..]) == Look(src, g.memory[..])
  {
    forall p | 0 <= p < PAGES
      ensures FrameAt(dir, p) == 0 <==> FrameAt(src, p) == 0
      ensures Contents(g.memory[..], FrameAt(dir, p)) == Contents(g.memory[..], FrameAt(src, p))
    {
      var i := p / ENTRIES;
      assert SlotCopied(src.tables[i], kernel.tables[i], dir.tables[i], before, g.memory[..]);
      if src.tables[i] != null && src.tables[i] != kernel.tables[i] {
        assert PageCopied(src.tables[i].pages[p % ENTRIES], dir.tables[i].pages[p % ENTRIES], g.memory[..]);
      }
    }
  }

  /** Cloning does not change what any other directory shows. */
  lemma KeptLooks(g: Pager, e: PageDirectory, used: set<nat>, m: seq<nat>)
    requires e.Valid() && g.Kept(used, m)
    requires FramesOf(e) <= used
    ensures Look(e, g.memory[..]) == Look(e, m)
  {
    forall p | 0 <= p < PAGES && FrameAt(e, p) != 0
      ensures Contents(g.memory[..], FrameAt(e, p)) == Contents(m, FrameAt(e, p))
    {
      assert FrameAt(e, p) in FramesOf(e);
      assert Same(m, g.memory[..], FrameAt(e, p), FrameAt(e, p));
    }
  }

  lemma FramesInUse(g: Pager, e: PageDirectory)
    requires g.Valid() && e.Valid() && g.Knows(e)
    ensures FramesOf(e) <= g.Used()
  {
    forall p | 0 <= p < PAGES && FrameAt(e, p) != 0 ensures FrameAt(e, p) in g.Used() {
      g.KnownInUse(e.tables[p / ENTRIES]);
    }
  }

  /** Two pages map to the same frame only through the same entry. */
  lemma FramesApart(g: Pager, d: PageDirectory, e: PageDirectory, p: nat, q: nat)
    requires g.Valid() && d.Valid() && e.Valid() && g.Knows(d) && g.Knows(e) && p < PAGES && q < PAGES
    requires FrameAt(d, p) == FrameAt(e, q) != 0
    ensures p == q && d.tables[p / ENTRIES] == e.tables[q / ENTRIES]
  {
    var t, u := d.tables[p / ENTRIES] as PageTable, e.tables[q / ENTRIES] as PageTable;
    var k :| 0 <= k < |g.made| && g.made[k] == t;
    var l :| 0 <= l < |g.made| && g.made[l] == u;
    assert g.Held()[(k, p % ENTRIES)] == FrameAt(d, p);
    assert g.Held()[(l, q % ENTRIES)] == FrameAt(e, q);
  }

  /** The pages under the tables of the kernel directory. */
  ghost function KernelPages(kernel: PageDirectory): set<nat>
    reads kernel.tables
  {
    set p | 0 <= p < PAGES && p / ENTRIES < kernel.tables.Length && kernel.tables[p / ENTRIES] != null
  }

  /** Address spaces in order: each has the tables of the kernel, the same objects, and shares no other table. */
  ghost predicate Family(g: Pager, kernel: PageDirectory, dirs: seq<PageDirectory>)
    reads g, kernel, kernel.tables, kernel.tablesPhysical
    reads set j | 0 <= j < |dirs| :: dirs[j]
    reads set j | 0 <= j < |dirs| :: dirs[j].tables
    reads set j | 0 <= j < |dirs| :: dirs[j].tablesPhysical
  {
    && kernel.Valid() && g.Knows(kernel)
    && (forall j :: 0 <= j < |dirs| ==> dirs[j].Valid() && g.Knows(dirs[j]))
    && (forall j, i :: 0 <= j < |dirs| && 0 <= i < ENTRIES && kernel.tables[i] != null ==>
          dirs[j].tables[i] == kernel.tables[i])
    && (forall j, k, i ::
          0 <= j < k < |dirs| && 0 <= i < ENTRIES && kernel.tables[i] == null && dirs[j].tables[i] != null ==>
          dirs[k].tables[i] != dirs[j].tables[i])
  }

  /** With memory m, the spaces show vs. */
  ghost predicate Shows(dirs: seq<PageDirectory>, m: seq<nat>, vs: seq<View>)
    reads set j | 0 <= j < |dirs| :: dirs[j].tables
    reads set j, p | 0 <= j < |dirs| && 0 <= p < PAGES && p / ENTRIES < dirs[j].tables.Length
      && dirs[j].tables[p / ENTRIES] != null :: dirs[j].tables[p / ENTRIES].pages
  {
    |vs| == |dirs| && forall j :: 0 <= j < |dirs| ==> Look(dirs[j], m) == vs[j]
  }

  /** Every table of the spaces is one of those in before. */
  ghost predicate TablesIn(dirs: seq<PageDirectory>, before: seq<PageTable>)
    reads set j | 0 <= j < |dirs| :: dirs[j].tables
  {
    forall j, i :: 0 <= j < |dirs| && 0 <= i < dirs[j].tables.Length && dirs[j].tables[i] != null ==>
      dirs[j].tables[i] in before
  }

  /** A clone joins the family. */
  lemma FamilyGrows(g: Pager, kernel: PageDirectory, dirs: seq<PageDirectory>, i: nat, dir: PageDirectory,
    before: seq<PageTable>)
    requires Family(g, kernel, dirs) && i < |dirs| && TablesIn(dirs, before)
    requires dir.Valid() && g.Knows(dir) && g.SlotsCopied(dirs[i], kernel, dir, ENTRIES, before)
    ensures Family(g, kernel, dirs + [dir])
  {
    forall x | 0 <= x < ENTRIES
      ensures kernel.tables[x] != null ==> dir.tables[x] == kernel.tables[x]
      ensures kernel.tables[x] == null && dir.tables[x] != null ==> dir.tables[x] !in before
    {
      assert SlotCopied(dirs[i].tables[x], kernel.tables[x], dir.tables[x], before, g.memory[..]);
    }
  }

  lemma SpacesInUse(g: Pager, dirs: seq<PageDirectory>)
    requires g.Valid() && forall j :: 0 <= j < |dirs| ==> dirs[j].Valid() && g.Knows(dirs[j])
    ensures forall j :: 0 <= j < |dirs| ==> FramesOf(dirs[j]) <= g.Used()
  {
    forall j | 0 <= j < |dirs| ensures FramesOf(dirs[j]) <= g.Used() {
      FramesInUse(g, dirs[j]);
    }
  }

  lemma SpacesKept(g: Pager, dirs: seq<PageDirectory>, used: set<nat>, m: seq<nat>, vs: seq<View>)
    requires g.Kept(used, m) && Shows(dirs, m, vs)
    requires forall j :: 0 <= j < |dirs| ==> dirs[j].Valid() && FramesOf(dirs[j]) <= used
    ensures Shows(dirs, g.memory[..], vs)
  {
    forall j | 0 <= j < |dirs| ensures Look(dirs[j], g.memory[..]) == vs[j] {
      KeptLooks(g, dirs[j], used, m);
    }
  }

  /** A clone of one space of a family, beside which the others show what they showed. */
  method CloneBeside(g: Pager, kernel: PageDirectory, parent: PageDirectory, ghost dirs: seq<PageDirectory>,
    ghost i: nat, ghost vs: seq<View>)
    returns (panicked: bool, dir: PageDirectory)
    requires g.Valid() && Family(g, kernel, dirs) && i < |dirs| && dirs[i] == parent && Shows(dirs, g.memory[..], vs)
    modifies g`made, g.frames, g.memory
    ensures panicked <==> old(g.Spare() < Needed(parent, kernel, ENTRIES))
    ensures g.Valid() && parent.Valid() && kernel.Valid() && dir.Valid() && g.Knows(dir)
    ensures !panicked ==>
      && g.SlotsCopied(parent, kernel, dir, ENTRIES, old(g.made)) && TablesIn(dirs, old(g.made))
      && Family(g, kernel, dirs) && Shows(dirs, g.memory[..], vs)
  {
    hide Owned, SlotCopied, FrameAt, Look, FramesOf;
    ghost var used, m := g.Used(), g.memory[..];
    SpacesInUse(g, dirs);
    panicked, dir := g.CloneDirectory(parent, kernel);
    if !panicked {
      assert forall j :: 0 <= j < |dirs| ==> FramesOf(dirs[j]) == old(FramesOf(dirs[j]));
      SpacesKept(g, dirs, used, m, vs);
    }
  }

  /** The part of fork that makes the child's address space. It succeeds exactly if the free frames suffice for the
      parent's own pages. */
  method ForkSpace(g: Pager, kernel: PageDirectory, parent: PageDirectory, ghost dirs: seq<PageDirectory>,
    ghost i: nat, ghost vs: seq<View>)
    returns (panicked: bool, dir: PageDirectory)
    requires g.Valid() && Family(g, kernel, dirs) && i < |dirs| && dirs[i] == parent && Shows(dirs, g.memory[..], vs)
    modifies g`made, g.frames, g.memory
    ensures panicked <==> old(g.Spare() < Needed(parent, kernel, ENTRIES))
    ensures !panicked ==>
      && g.Valid() && Family(g, kernel, dirs + [dir])
      && Shows(dirs + [dir], g.memory[..], After(KernelPages(kernel), vs, Fork(i)))
  {
    hide Owned, SlotCopied, FrameAt, Family;
    ghost var made := g.made;
    panicked, dir := CloneBeside(g, kernel, parent, dirs, i, vs);
    if !panicked {
      CloneLooks(g, parent, kernel, dir, made);
      FamilyGrows(g, kernel, dirs, i, dir, made);
    }
  }

  /** What a store into frame f changes in a space that maps no page but p to it. */
  lemma StoreLooks(e: PageDirectory, m: seq<nat>, m': seq<nat>, f: nat, p: nat, w: Write)
    requires f != 0 && f * WORDS + WORDS <= |m| && w.page == p < PAGES && w.word < WORDS
    requires OnlyFrame(m, m', f) && FrameWords(m', f) == FrameWords(m, f)[w.word := w.value]
    requires forall q :: 0 <= q < PAGES && FrameAt(e, q) == f ==> q == p
    requires forall q :: 0 <= q < PAGES ==> FrameAt(e, q) * WORDS + WORDS <= |m|
    ensures Look(e, m') == if FrameAt(e, p) == f then Written(Look(e, m), w) else Look(e, m)
  {
    forall q | 0 <= q < PAGES && FrameAt(e, q) != f ensures Contents(m', FrameAt(e, q)) == Contents(m, FrameAt(e, q)) {
      OtherFrame(m, m', f, FrameAt(e, q));
    }
  }

  /** Which spaces map page p to the frame that space i maps it to: itself and, under the kernel's tables, all. */
  lemma WhoShares(g: Pager, kernel: PageDirectory, dirs: seq<PageDirectory>, i: nat, j: nat, p: nat)
    requires g.Valid() && Family(g, kernel, dirs) && i < |dirs| && j < |dirs| && p < PAGES && FrameAt(dirs[i], p) != 0
    ensures FrameAt(dirs[j], p) == FrameAt(dirs[i], p) <==> j == i || p in KernelPages(kernel)
    ensures forall q :: 0 <= q < PAGES && FrameAt(dirs[j], q) == FrameAt(dirs[i], p) ==> q == p
  {
    forall q | 0 <= q < PAGES && FrameAt(dirs[j], q) == FrameAt(dirs[i], p)
      ensures q == p && (j == i || p in KernelPages(kernel))
    {
      FramesApart(g, dirs[i], dirs[j], p, q);
    }
  }

  lemma FramesFit(g: Pager, e: PageDirectory)
    requires g.Valid() && e.Valid() && g.Knows(e)
    ensures forall q :: 0 <= q < PAGES ==> FrameAt(e, q) * WORDS + WORDS <= g.memory.Length
  {
    FramesInUse(g, e);
    forall q | 0 <= q < PAGES ensures FrameAt(e, q) * WORDS + WORDS <= g.memory.Length {
      assert FrameAt(e, q) != 0 ==> FrameAt(e, q) in FramesOf(e);
      assert 0 in g.Used();
    }
  }

  lemma StoreShows(g: Pager, kernel: PageDirectory, dirs: seq<PageDirectory>, i: nat, m: seq<nat>, m': seq<nat>,
    vs: seq<View>, w: Write)
    requires g.Valid() && Family(g, kernel, dirs) && i < |dirs| && Shows(dirs, m, vs) && |m| == g.memory.Length
    requires w.page < PAGES && w.word < WORDS && FrameAt(dirs[i], w.page) != 0
    requires var f := FrameAt(dirs[i], w.page);
      f * WORDS + WORDS <= |m| && OnlyFrame(m, m', f) && FrameWords(m', f) == FrameWords(m, f)[w.word := w.value]
    ensures Shows(dirs, m', After(KernelPages(kernel), vs, Store(i, w.page, w.word, w.value)))
  {
    forall j | 0 <= j < |dirs|
      ensures Look(dirs[j], m') == if j == i || w.page in KernelPages(kernel) then Written(vs[j], w) else vs[j]
    {
      WhoShares(g, kernel, dirs, i, j, w.page);
      FramesFit(g, dirs[j]);
      StoreLooks(dirs[j], m, m', FrameAt(dirs[i], w.page), w.page, w);
    }
  }

  /** The processor finds the entry through the directory and writes to its frame. */
  method WriteThrough(g: Pager, d: PageDirectory, address: nat, value: nat)
    requires g.Valid() && d.Valid() && g.Knows(d) && address < WORD && FrameAt(d, address / PAGE) != 0
    modifies g.memory
    ensures g.Valid()
    ensures var f := FrameAt(d, address / PAGE);
      && f * WORDS + WORDS <= g.memory.Length && OnlyFrame(old(g.memory[..]), g.memory[..], f)
      && FrameWords(g.memory[..], f) == old(FrameWords(g.memory[..], f))[address % PAGE / 4 := value]
  {
    ghost var own := g.Own();
    FramesFit(g, d);
    var t := d.tables[address / PAGE / ENTRIES];
    var f := t.pages[address / PAGE % ENTRIES].frame;
    g.memory[f * WORDS + address % PAGE / 4] := value;
    assert g.Own() == own;
  }

  /** A load by the running process gives the word that its space shows. */
  method LoadWord(g: Pager, d: PageDirectory, address: nat, ghost dirs: seq<PageDirectory>, ghost i: nat,
    ghost vs: seq<View>)
    returns (value: nat)
    requires g.Valid() && d.Valid() && g.Knows(d) && address < WORD && FrameAt(d, address / PAGE) != 0
    requires i < |dirs| && dirs[i] == d && Shows(dirs, g.memory[..], vs)
    ensures Mapped(vs[i], address / PAGE, address % PAGE / 4)
    ensures value == vs[i][address / PAGE][address % PAGE / 4]
  {
    FramesFit(g, d);
    var t := d.tables[address / PAGE / ENTRIES];
    var f := t.pages[address / PAGE % ENTRIES].frame;
    value := g.memory[f * WORDS + address % PAGE / 4];
  }

  /** A store by the running process. */
  method StoreWord(g: Pager, kernel: PageDirectory, d: PageDirectory, address: nat, value: nat,
    ghost dirs: seq<PageDirectory>, ghost i: nat, ghost vs: seq<View>)
    requires g.Valid() && Family(g, kernel, dirs) && i < |dirs| && dirs[i] == d && Shows(dirs, g.memory[..], vs)
    requires address < WORD && FrameAt(d, address / PAGE) != 0
    modifies g.memory
    ensures g.Valid() && Family(g, kernel, dirs)
    ensures var e := Store(i, address / PAGE, address % PAGE / 4, value);
      Shows(dirs, g.memory[..], After(KernelPages(kernel), vs, e))
  {
    hide Owned, FrameWords, OnlyFrame, After;
    ghost var m := g.memory[..];
    WriteThrough(g, d, address, value);
    StoreShows(g, kernel, dirs, i, m, g.memory[..], vs, Write(address / PAGE, address % PAGE / 4, value));
  }
}
