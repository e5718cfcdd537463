/** The frame allocator, the page tables and the cloning of address spaces of cpu/paging.c. */
module Pager {
  import opened Machine
  import opened FrameBitmap
  import opened FrameOwnership
  import opened PageTables
  import opened PhysicalMemory

  /** An entry of the k-th page table. */
  type Slot = (nat, nat)

  /** The entry q with the flags of p joined to its own. */
  function WithFlags(q: Page, p: Page): Page {
    Page(q.present || p.present, q.rw || p.rw, q.user || p.user, q.accessed || p.accessed, q.dirty || p.dirty, q.frame)
  }

  /** Frame f has the same contents in both memories. */
  predicate Same(m: seq<nat>, m': seq<nat>, f: nat, f': nat) {
    && f * WORDS + WORDS <= |m| && f' * WORDS + WORDS <= |m'|
    && FrameWords(m, f) == FrameWords(m', f')
  }

  lemma OthersSame(m: seq<nat>, m': seq<nat>, g: nat, used: set<nat>)
    requires OnlyFrame(m, m', g) && g !in used && forall h :: h in used ==> h * WORDS + WORDS <= |m|
    ensures forall h :: h in used ==> Same(m, m', h, h)
  {
    forall h | h in used ensures Same(m, m', h, h) {
      OtherFrame(m, m', g, h);
    }
  }

  /** How many of the first n entries have a frame. */
  function Holding(pages: seq<Page>, n: nat): (h: nat)
    requires n <= |pages|
    ensures h <= n
  {
    if n == 0 then 0 else Holding(pages, n - 1) + (if pages[n - 1].frame != 0 then 1 else 0)
  }

  lemma {:induction false} HoldingGrows(pages: seq<Page>, m: nat, n: nat)
    requires m <= n <= |pages|
    ensures Holding(pages, m) <= Holding(pages, n)
  {
    if m < n {
      HoldingGrows(pages, m, n - 1);
    }
  }

  /** q is a copy of p: it has a frame if p has one, another one with the same contents. It is present, writable and
      open to user mode, whatever p is, and accessed and dirty if p is. */
  predicate PageCopied(p: Page, q: Page, m: seq<nat>) {
    if p.frame == 0 then q == BLANK
    else
      && q.frame != 0 && q.frame != p.frame && Same(m, m, p.frame, q.frame)
      && q == Page(true, true, true, p.accessed, p.dirty, q.frame)
  }

  /** A copy permits what its source does, and no more exactly if the source permits everything. */
  lemma CopyPermits(p: Page, q: Page, m: seq<nat>)
    requires PageCopied(p, q, m) && p.frame != 0
    ensures WithFlags(q, p) == q
    ensures q == p.(frame := q.frame) <==> p.present && p.rw && p.user
  {
  }

  lemma CopySurvives(p: Page, q: Page, m: seq<nat>, m': seq<nat>)
    requires PageCopied(p, q, m)
    requires p.frame != 0 ==> Same(m, m', p.frame, p.frame) && Same(m, m', q.frame, q.frame)
    ensures PageCopied(p, q, m')
  {
  }

  /** The first n entries of dst are copies of those of src. */
  ghost predicate TableCopied(src: PageTable, dst: PageTable, n: nat, m: seq<nat>)
    requires n <= src.pages.Length && n <= dst.pages.Length
    reads src.pages, dst.pages
  {
    forall s :: 0 <= s < n ==> PageCopied(src.pages[s], dst.pages[s], m)
  }

  ghost function PagesOf(t: PageTable?): set<object> {
    if t == null then {} else {t.pages}
  }

  /** What stands in a slot of a cloned directory: nothing for nothing, the kernel's own table for the kernel's,
      and a copy that no directory had before for any other. */
  ghost predicate SlotCopied(s: PageTable?, kernel: PageTable?, d: PageTable?, before: seq<PageTable>, m: seq<nat>)
    reads PagesOf(s), PagesOf(d)
  {
    if s == null || s == kernel then d == s
    else
      && d != null && d !in before && s.pages.Length == d.pages.Length == ENTRIES
      && TableCopied(s, d, ENTRIES, m)
  }

  /** How many frames it takes to clone a slot: none for the kernel's table, and one for each frame of another. */
  ghost function Need(s: PageTable?, kernel: PageTable?): nat
    reads PagesOf(s)
  {
    if s == null || s == kernel then 0 else Holding(s.pages[..], s.pages.Length)
  }

  /** How many frames it takes to clone the first n slots of a directory. */
  ghost function Needed(src: PageDirectory, kernel: PageDirectory, n: nat): nat
    requires n <= src.tables.Length && n <= kernel.tables.Length
    reads src.tables, kernel.tables, set i | 0 <= i < n && src.tables[i] != null :: src.tables[i].pages
  {
    if n == 0 then 0 else Needed(src, kernel, n - 1) + Need(src.tables[n - 1], kernel.tables[n - 1])
  }

  lemma {:induction false} NeededGrows(src: PageDirectory, kernel: PageDirectory, m: nat, n: nat)
    requires m <= n <= src.tables.Length && n <= kernel.tables.Length
    ensures Needed(src, kernel, m) <= Needed(src, kernel, n)
  {
    if m < n {
      NeededGrows(src, kernel, m, n - 1);
    }
  }

  /** The stores that join the flags of another entry to those of an entry. */
  method CloneFlags(pages: array<Page>, i: nat, p: Page)
    requires i < pages.Length
    modifies pages
    ensures pages[i] == WithFlags(old(pages[i]), p)
    ensures forall s :: 0 <= s < pages.Length && s != i ==> pages[s] == old(pages[s])
  {
    if p.present { pages[i] := pages[i].(present := true); }
    if p.rw { pages[i] := pages[i].(rw := true); }
    if p.user { pages[i] := pages[i].(user := true); }
    if p.accessed { pages[i] := pages[i].(accessed := true); }
    if p.dirty { pages[i] := pages[i].(dirty := true); }
  }

  predicate Other(t: object, a: object, b: object) {
    t != a && t != b
  }

  class Pager {
    const frames: array<nat>
    const nframes: nat
    const memory: array<nat>  // physical memory by words of four bytes
    ghost var made: seq<PageTable>

    ghost predicate Shaped()
      reads this, frames
    {
      && nframes == frames.Length * 32 && memory.Length == nframes * (PAGE / 4) && frames != memory
      && Words(frames[..])
      && (forall k :: 0 <= k < |made| ==> made[k].pages.Length == ENTRIES && Other(made[k].pages, frames, memory))
      && (forall k, l :: 0 <= k < l < |made| ==> made[k].pages != made[l].pages)
    }

    ghost function Used(): set<nat>
      reads frames
    {
      set f | 0 <= f < frames.Length * 32 && Marked(frames[..], f)
    }

    /** How many frames are free. */
    ghost function Spare(): int
      reads frames
    {
      frames.Length * 32 - |Used()|
    }

    lemma SpareNone()
      requires Shaped()
      ensures Spare() >= 0
      ensures Spare() == 0 <==> LowestFree(Used(), 0, nframes) == nframes
    {
      FullWhen(Used(), nframes);
    }

    ghost function Held(): map<Slot, nat>
      requires Shaped()
      reads this, frames, set k | 0 <= k < |made| :: made[k].pages
    {
      map k, s | 0 <= k < |made| && 0 <= s < ENTRIES :: (k, s) := made[k].pages[s].frame
    }

    ghost function Own(): State<Slot>
      requires Shaped()
      reads this, frames, set k | 0 <= k < |made| :: made[k].pages
    {
      State(Used(), Held())
    }

    ghost predicate Valid()
      reads this, frames, set k | 0 <= k < |made| :: made[k].pages
    {
      Shaped() && Owned(Own())
    }

    /** The free frame that first_frame finds, marked as used. */
    method TakeFrame() returns (idx: int)
      requires Shaped()
      modifies frames
      ensures Shaped() && Held() == old(Held())
      ensures idx == -1 ==> frames[..] == old(frames[..]) && LowestFree(Used(), 0, nframes) == nframes
      ensures idx != -1 ==> idx == LowestFree(old(Used()), 0, nframes) < nframes && Used() == old(Used()) + {idx}
    {
      ghost var used := Used();
      idx := FirstFrame(frames, nframes);
      assert forall g :: g in used <==> 0 <= g < nframes && Marked(frames[..], g);
      if idx != -1 {
        assert idx !in used;
        SetFrame(frames, idx * PAGE);
        assert idx * PAGE / PAGE == idx;
      }
    }

    lemma HeldReads(e: Slot)
      requires Shaped()
      ensures e in Held() <==> e.0 < |made| && e.1 < ENTRIES
      ensures e in Held() ==> Held()[e] == made[e.0].pages[e.1].frame
    {
    }

    lemma HeldIs(h: map<Slot, nat>)
      requires Shaped()
      requires forall e: Slot :: e in h <==> e.0 < |made| && e.1 < ENTRIES
      requires forall e: Slot :: e in h ==> h[e] == made[e.0].pages[e.1].frame
      ensures Held() == h
    {
      forall e: Slot ensures e in Held() <==> e in h {
        HeldReads(e);
      }
    }

    /** The tables stand apart from the k-th one. */
    lemma TablesApart(k: nat)
      requires Shaped() && k < |made|
      ensures forall l :: 0 <= l < |made| && l != k ==> made[l].pages != made[k].pages
    {
    }

    method SetPage(table: PageTable, slot: nat, page: Page, ghost k: nat)
      requires Shaped() && k < |made| && made[k] == table && slot < ENTRIES
      modifies table.pages
      ensures Shaped() && Used() == old(Used())
      ensures table.pages[slot] == page
      ensures forall s :: 0 <= s < ENTRIES && s != slot ==> table.pages[s] == old(table.pages[s])
      ensures forall l :: 0 <= l < |made| && l != k ==> made[l].pages[..] == old(made[l].pages[..])
    {
      TablesApart(k);
      table.pages[slot] := page;
    }

    method SetEntry(table: PageTable, slot: nat, page: Page, ghost k: nat)
      requires Shaped() && k < |made| && made[k] == table && slot < ENTRIES
      modifies table.pages
      ensures Shaped() && Held() == old(Held())[(k, slot) := page.frame] && Used() == old(Used())
      ensures table.pages[slot] == page
      ensures forall s :: 0 <= s < ENTRIES && s != slot ==> table.pages[s] == old(table.pages[s])
    {
      ghost var held := Held()[(k, slot) := page.frame];
      SetPage(table, slot, page, k);
      forall e: Slot | e in held ensures held[e] == made[e.0].pages[e.1].frame {
        assert e.0 != k ==> made[e.0].pages[..][e.1] == old(made[e.0].pages[..])[e.1];
      }
      HeldIs(held);
    }

    /** alloc_frame, on an entry of the k-th page table. */
    method AllocFrame(table: PageTable, slot: nat, isKernel: bool, isWriteable: bool, ghost k: nat)
      returns (panicked: bool)
      requires Shaped() && k < |made| && made[k] == table && slot < ENTRIES
      modifies frames, table.pages
      ensures Shaped() && Own() == Step(Intended, nframes, old(Own()), Allocate((k, slot)))
      ensures panicked <==> old(table.pages[slot].frame == 0 && LowestFree(Used(), 0, nframes) == nframes)
      ensures forall s :: 0 <= s < ENTRIES && s != slot ==> table.pages[s] == old(table.pages[s])
      ensures var p := old(table.pages[slot]);
        table.pages[slot] == if p.frame != 0 || panicked then p
          else Page(true, isWriteable, !isKernel, p.accessed, p.dirty, LowestFree(old(Used()), 0, nframes))
    {
      panicked := false;
      assert Held()[(k, slot)] == table.pages[slot].frame;
      if table.pages[slot].frame != 0 {
        return;
      }
      var idx := TakeFrame();
      if idx == -1 {
        return true;
      }
      var page := table.pages[slot];
      SetEntry(table, slot, Page(true, isWriteable, !isKernel, page.accessed, page.dirty, idx), k);
    }

    /** alloc_frame on an entry without a frame when frame f is the lowest free one. */
    method AllocNext(table: PageTable, slot: nat, isKernel: bool, isWriteable: bool, ghost k: nat, ghost f: nat)
      requires Shaped() && k < |made| && made[k] == table && slot < ENTRIES && table.pages[slot] == BLANK
      requires f < nframes && forall x :: x in Used() <==> 0 <= x < f
      modifies frames, table.pages
      ensures Shaped() && forall x :: x in Used() <==> 0 <= x < f + 1
      ensures table.pages[..] == old(table.pages[..])[slot := Page(true, isWriteable, !isKernel, false, false, f)]
    {
      LowestIs(Used(), f, nframes);
      assert Held()[(k, slot)] == 0;
      ghost var s := Own();
      var panicked := AllocFrame(table, slot, isKernel, isWriteable, k);
      assert Own().used == s.used + {f};
    }

    method GiveBack(address: nat)
      requires Shaped() && address / PAGE < nframes
      modifies frames
      ensures Shaped() && Used() == old(Used()) - {address / PAGE} && Held() == old(Held())
    {
      ghost var used := Used();
      ClearFrame(frames, address);
      assert Used() == used - {address / PAGE};
    }

    /** free_frame. Only with the address of the frame in place of its number does it give the frame back. */
    method FreeFrame(variant: Variant, table: PageTable, slot: nat, ghost k: nat)
      requires Shaped() && k < |made| && made[k] == table && slot < ENTRIES
      requires table.pages[slot].frame < nframes
      modifies frames, table.pages
      ensures Shaped() && Own() == Step(variant, nframes, old(Own()), Release((k, slot)))
      ensures forall s :: 0 <= s < ENTRIES && s != slot ==> table.pages[s] == old(table.pages[s])
      ensures table.pages[slot] == old(table.pages[slot]).(frame := 0)
    {
      assert Held()[(k, slot)] == table.pages[slot].frame;
      var frame := table.pages[slot].frame;
      if frame == 0 {
        return;
      }
      ghost var s := Own();
      var address := match variant { case AsWritten => frame case Intended => frame * PAGE };
      assert FreedBit(variant, frame) == address / PAGE < nframes;
      GiveBack(address);
      SetEntry(table, slot, table.pages[slot].(frame := 0), k);
      ReleaseIs(variant, nframes, s, (k, slot), Own());
    }

    // -------------------------------------------------------------------------------------------
    // Cloning

    /** The frames in use before are still in use, and their contents are what they were. */
    ghost predicate Kept(used: set<nat>, m: seq<nat>)
      reads frames, memory
    {
      && |m| == memory.Length && used <= Used()
      && forall f :: f in used ==> Same(m, memory[..], f, f)
    }

    /** A new table, blank. */
    method NewTable(phys: nat, ghost home: nat) returns (table: PageTable)
      requires Shaped()
      modifies this`made
      ensures Shaped() && made == old(made) + [table] && fresh(table) && fresh(table.pages)
      ensures table.phys == phys && table.home == home && table.pages.Length == ENTRIES
      ensures forall s :: 0 <= s < ENTRIES ==> table.pages[s] == BLANK
    {
      table := new PageTable(phys, home);
      made := made + [table];
    }

    /** A new table beside those that hold what they held. */
    method NewTableBeside(phys: nat, ghost home: nat, ghost held: map<Slot, nat>) returns (table: PageTable)
      requires Shaped() && held == Held()
      modifies this`made
      ensures Shaped() && made == old(made) + [table] && fresh(table) && fresh(table.pages)
      ensures table.phys == phys && table.home == home && table.pages.Length == ENTRIES
      ensures forall s :: 0 <= s < ENTRIES ==> table.pages[s] == BLANK
      ensures forall e: Slot :: e in held <==> e.0 < |made| - 1 && e.1 < ENTRIES
      ensures forall e: Slot :: e in held ==> held[e] == made[e.0].pages[e.1].frame
    {
      forall e: Slot
        ensures e in held <==> e.0 < |made| && e.1 < ENTRIES
        ensures e in held ==> held[e] == made[e.0].pages[e.1].frame
      {
        HeldReads(e);
      }
      table := NewTable(phys, home);
    }

    /** The entries of a new table own nothing. */
    lemma NewOwnsNothing(s: State<Slot>, n: nat)
      requires Shaped() && |made| == n + 1 && s.used == Used()
      requires forall x :: 0 <= x < ENTRIES ==> made[n].pages[x] == BLANK
      requires forall e: Slot :: e in s.held <==> e.0 < n && e.1 < ENTRIES
      requires forall e: Slot :: e in s.held ==> s.held[e] == made[e.0].pages[e.1].frame
      ensures BlankMore(s, Own())
    {
      var t := Own();
      forall e: Slot | e in t.held ensures t.held[e] == if e in s.held then s.held[e] else 0 {
        assert t.held[e] == made[e.0].pages[e.1].frame;
      }
      forall e: Slot | e in s.held ensures e in t.held {
      }
    }

    /** A new table among tables in order. */
    method AddTable(phys: nat, ghost home: nat) returns (table: PageTable)
      requires Valid()
      modifies this`made
      ensures Valid() && made == old(made) + [table] && fresh(table) && fresh(table.pages)
      ensures table.phys == phys && table.home == home && table.pages.Length == ENTRIES
      ensures forall s :: 0 <= s < ENTRIES ==> table.pages[s] == BLANK
    {
      ghost var s := Own();
      table := NewTableBeside(phys, home, s.held);
      NewOwnsNothing(s, |made| - 1);
      BlankAdded(s, Own());
    }

    /** The same for an entry of a table. No entry gets another frame. */
    method SetFlags(table: PageTable, i: nat, p: Page, ghost k: nat)
      requires Shaped() && k < |made| && made[k] == table && i < ENTRIES
      modifies table.pages
      ensures Shaped() && Held() == old(Held()) && Used() == old(Used())
      ensures table.pages[i] == WithFlags(old(table.pages[i]), p)
      ensures forall s :: 0 <= s < ENTRIES && s != i ==> table.pages[s] == old(table.pages[s])
    {
      ghost var held := Held();
      CloneFlags(table.pages, i, p);
      forall e: Slot | e in held ensures held[e] == made[e.0].pages[e.1].frame {
        assert e.0 != k ==> made[e.0].pages != made[k].pages;
      }
      HeldIs(held);
    }

    method CloneFlagsOf(table: PageTable, i: nat, p: Page, ghost k: nat)
      requires Valid() && k < |made| && made[k] == table && i < ENTRIES
      modifies table.pages
      ensures Valid() && Own() == old(Own()) && Used() == old(Used())
      ensures table.pages[i] == WithFlags(old(table.pages[i]), p)
      ensures forall s :: 0 <= s < ENTRIES && s != i ==> table.pages[s] == old(table.pages[s])
    {
      ghost var own := Own();
      SetFlags(table, i, p, k);
      assert Own() == own;
    }

    /** A frame for a blank entry. It was not in use before. */
    method FreshFrame(table: PageTable, i: nat, ghost k: nat) returns (panicked: bool)
      requires Valid() && k < |made| && made[k] == table && i < ENTRIES && table.pages[i] == BLANK
      modifies frames, table.pages
      ensures Valid()
      ensures panicked <==> old(table.pages[i].frame == 0 && LowestFree(Used(), 0, nframes) == nframes)
      ensures panicked <==> old(Spare()) == 0
      ensures panicked ==> Own() == old(Own())
      ensures !panicked ==> Spare() == old(Spare()) - 1
      ensures !panicked ==> table.pages[i].frame !in old(Used()) && Used() == old(Used()) + {table.pages[i].frame}
      ensures !panicked ==>
        && 0 < table.pages[i].frame < nframes
        && table.pages[i] == Page(true, true, true, false, false, table.pages[i].frame)
      ensures forall s :: 0 <= s < ENTRIES && s != i ==> table.pages[s] == old(table.pages[s])
    {
      assert Held()[(k, i)] == 0;
      FreshFor(nframes, Own(), (k, i));
      panicked := AllocFrame(table, i, false, true, k);
    }

    /** One round of the loop of clone_table, for an entry with a frame. */
    method ClonePage(src: PageTable, table: PageTable, i: nat, ghost j: nat, ghost k: nat) returns (panicked: bool)
      requires Valid() && j < k < |made| && made[j] == src && made[k] == table && i < ENTRIES
      requires src.pages[i].frame != 0 && table.pages[i] == BLANK
      modifies frames, table.pages, memory
      ensures Valid()
      ensures panicked <==> old(Spare()) == 0
      ensures !panicked ==> Spare() == old(Spare()) - 1
      ensures !panicked ==> Kept(old(Used()), old(memory[..]))
      ensures !panicked ==> PageCopied(src.pages[i], table.pages[i], memory[..]) && table.pages[i].frame in Used()
      ensures forall s :: 0 <= s < ENTRIES && s != i ==> table.pages[s] == old(table.pages[s])
    {
      ghost var used, m := Used(), memory[..];
      assert Held()[(j, i)] == src.pages[i].frame;
      var p := src.pages[i];
      assert p.frame in used;
      panicked := FreshFrame(table, i, k);
      if !panicked {
        CloneFlagsOf(table, i, p, k);
        CopyInto(p.frame, table.pages[i].frame, used);
      }
    }

    method CopyFrame(f: nat, g: nat)
      requires Shaped() && f < nframes && g < nframes
      modifies memory
      ensures Shaped() && Held() == old(Held()) && Used() == old(Used())
      ensures OnlyFrame(old(memory[..]), memory[..], g) && Same(old(memory[..]), memory[..], f, g)
    {
      CopyPagePhysical(memory, f * PAGE, g * PAGE);
    }

    method CopyInto(f: nat, g: nat, ghost used: set<nat>)
      requires Valid() && f in used && g !in used && g in Used() && used <= Used()
      modifies memory
      ensures Valid() && Own() == old(Own()) && Used() == old(Used())
      ensures Kept(used, old(memory[..])) && Same(memory[..], memory[..], f, g)
    {
      ghost var m, own := memory[..], Own();
      CopyFrame(f, g);
      assert Own() == own;
      OthersSame(m, memory[..], g, used);
    }

    /** The frames of every table are in use. */
    lemma InUse(k: nat)
      requires Valid() && k < |made|
      ensures forall s :: 0 <= s < ENTRIES ==> made[k].pages[s].frame in Used()
    {
      forall s | 0 <= s < ENTRIES ensures made[k].pages[s].frame in Used() {
        assert Held()[(k, s)] == made[k].pages[s].frame;
      }
    }

    /** Copies of entries stay copies as long as the frames in use are kept. */
    lemma CopiesSurvive(src: PageTable, table: PageTable, n: nat, used: set<nat>, m: seq<nat>)
      requires Kept(used, m) && n <= src.pages.Length && n <= table.pages.Length && TableCopied(src, table, n, m)
      requires forall s :: 0 <= s < n ==> src.pages[s].frame in used && table.pages[s].frame in used
      ensures TableCopied(src, table, n, memory[..])
    {
      forall s | 0 <= s < n ensures PageCopied(src.pages[s], table.pages[s], memory[..]) {
        CopySurvives(src.pages[s], table.pages[s], m, memory[..]);
      }
    }

    /** One round of the loop of clone_table. */
    method CloneEntry(src: PageTable, table: PageTable, i: nat, ghost j: nat, ghost k: nat, ghost spare: int)
      returns (panicked: bool)
      requires Valid() && j < k < |made| && made[j] == src && made[k] == table && i < ENTRIES
      requires TableCopied(src, table, i, memory[..]) && table.pages[i] == BLANK
      requires Spare() == spare - Holding(src.pages[..], i)
      modifies frames, memory, table.pages
      ensures Valid()
      ensures panicked <==> src.pages[i].frame != 0 && old(Spare()) == 0
      ensures panicked ==> spare < Holding(src.pages[..], ENTRIES)
      ensures !panicked ==> 0 <= Spare() == spare - Holding(src.pages[..], i + 1)
      ensures !panicked ==> Kept(old(Used()), old(memory[..])) && TableCopied(src, table, i + 1, memory[..])
      ensures forall s :: i < s < ENTRIES ==> table.pages[s] == old(table.pages[s])
    {
      ghost var used, m := Used(), memory[..];
      InUse(j);
      InUse(k);
      SpareNone();
      HoldingGrows(src.pages[..], i + 1, ENTRIES);
      panicked := false;
      if src.pages[i].frame != 0 {
        panicked := ClonePage(src, table, i, j, k);
        if panicked {
          return;
        }
      }
      SpareNone();
      CopiesSurvive(src, table, i, used, m);
    }

    /** The loop of clone_table. */
    method CloneEntries(src: PageTable, table: PageTable, ghost j: nat, ghost k: nat) returns (panicked: bool)
      requires Valid() && j < k < |made| && made[j] == src && made[k] == table
      requires forall s :: 0 <= s < ENTRIES ==> table.pages[s] == BLANK
      modifies frames, memory, table.pages
      ensures Valid()
      ensures panicked <==> old(Spare()) < Holding(src.pages[..], ENTRIES)
      ensures !panicked ==> Spare() == old(Spare()) - Holding(src.pages[..], ENTRIES)
      ensures !panicked ==> Kept(old(Used()), old(memory[..])) && TableCopied(src, table, ENTRIES, memory[..])
    {
      ghost var used, m, spare := Used(), memory[..], Spare();
      SpareNone();
      assert TableCopied(src, table, 0, memory[..]);
      hide TableCopied, Owned;
      panicked := false;
      var i := 0;
      while i < ENTRIES
        invariant i <= ENTRIES && Valid()
        invariant Kept(used, m) && TableCopied(src, table, i, memory[..])
        invariant forall s :: i <= s < ENTRIES ==> table.pages[s] == BLANK
        invariant 0 <= Spare() == spare - Holding(src.pages[..], i)
      {
        panicked := CloneEntry(src, table, i, j, k, spare);
        if panicked {
          return;
        }
        i := i + 1;
      }
    }

    /** clone_table: a new table, with a frame of its own for every frame of the old one. It panics exactly if the
        old one has more frames than are free. */
    method CloneTable(src: PageTable, phys: nat, ghost j: nat) returns (panicked: bool, table: PageTable)
      requires Valid() && j < |made| && made[j] == src
      modifies this`made, frames, memory
      ensures Valid() && made == old(made) + [table] && fresh(table) && fresh(table.pages)
      ensures table.phys == phys && table.home == src.home && table.pages.Length == ENTRIES
      ensures panicked <==> old(Spare()) < Holding(src.pages[..], ENTRIES)
      ensures !panicked ==> Spare() == old(Spare()) - Holding(src.pages[..], ENTRIES)
      ensures !panicked ==> Kept(old(Used()), old(memory[..])) && TableCopied(src, table, ENTRIES, memory[..])
    {
      table := AddTable(phys, src.home);
      panicked := CloneEntries(src, table, j, |made| - 1);
    }

    /** Every table that the directory refers to is one of those made here. */
    ghost predicate Knows(d: PageDirectory)
      reads this, d, d.tables
    {
      && d.tables.Length == ENTRIES && d.tablesPhysical != frames && d.tablesPhysical != memory
      && forall i :: 0 <= i < ENTRIES && d.tables[i] != null ==> d.tables[i] in made
    }

    /** The frames of a table, if there is one, are in use. */
    ghost predicate TableInUse(t: PageTable?, used: set<nat>)
      reads PagesOf(t)
    {
      t != null ==> t.pages.Length == ENTRIES && forall x :: 0 <= x < ENTRIES ==> t.pages[x].frame in used
    }

    /** A copy of a slot stays one as long as the frames in use are kept. */
    lemma SlotSurvives(s: PageTable?, kernel: PageTable?, d: PageTable?, before: seq<PageTable>,
      used: set<nat>, m: seq<nat>)
      requires SlotCopied(s, kernel, d, before, m) && Kept(used, m)
      requires TableInUse(s, used) && TableInUse(d, used)
      ensures SlotCopied(s, kernel, d, before, memory[..])
    {
      if s != null && s != kernel {
        CopiesSurvive(s, d, ENTRIES, used, m);
      }
    }

    /** The frames of a table that a directory knows are in use. */
    lemma KnownInUse(t: PageTable)
      requires Valid() && t in made
      ensures t.pages.Length == ENTRIES && forall x :: 0 <= x < ENTRIES ==> t.pages[x].frame in Used()
    {
      var k :| 0 <= k < |made| && made[k] == t;
      InUse(k);
    }

    lemma TablesInUse()
      requires Valid()
      ensures forall t :: t in made ==> TableInUse(t, Used())
    {
      forall t | t in made ensures TableInUse(t, Used()) {
        KnownInUse(t);
      }
    }

    /** kmalloc_ap once the heap exists: the heap picks a page. */
    method HeapPage() returns (phys: nat)
      ensures phys % PAGE == 0
    {
      phys :| phys % PAGE == 0;
    }

    /** The table for a slot of a cloned directory. */
    method CloneOf(s: PageTable, kernel: PageTable?) returns (panicked: bool, t: PageTable)
      requires Valid() && s in made
      modifies this`made, frames, memory
      ensures Valid() && old(made) <= made && t in made && t.home == s.home && t.pages.Length == ENTRIES
      ensures panicked <==> old(Spare()) < Need(s, kernel)
      ensures !panicked ==> Spare() == old(Spare()) - Need(s, kernel)
      ensures !panicked ==> Kept(old(Used()), old(memory[..]))
      ensures !panicked ==> SlotCopied(s, kernel, t, old(made), memory[..])
    {
      KnownInUse(s);
      SpareNone();
      if kernel == s {
        return false, s;
      }
      var phys := HeapPage();
      ghost var j :| 0 <= j < |made| && made[j] == s;
      panicked, t := CloneTable(s, phys, j);
    }

    /** One round of the loop of clone_directory. */
    method CloneSlot(src: PageDirectory, kernel: PageDirectory, dir: PageDirectory, i: nat) returns (panicked: bool)
      requires Valid() && i < ENTRIES && src.Valid() && kernel.tables.Length == ENTRIES && dir.Valid()
      requires Knows(src) && dir.tables[i] == null
      requires dir.tables != src.tables && dir.tables != kernel.tables
      requires dir.tablesPhysical !in {src.tablesPhysical, kernel.tablesPhysical, frames, memory}
      modifies this`made, frames, memory, dir.tables, dir.tablesPhysical
      ensures Valid() && old(made) <= made
      ensures panicked <==> old(Spare() < Need(src.tables[i], kernel.tables[i]))
      ensures !panicked ==> Spare() == old(Spare() - Need(src.tables[i], kernel.tables[i]))
      ensures !panicked ==> Kept(old(Used()), old(memory[..]))
      ensures !panicked ==> SlotCopied(src.tables[i], kernel.tables[i], dir.tables[i], old(made), memory[..])
      ensures dir.Valid() && (dir.tables[i] != null ==> dir.tables[i] in made)
      ensures forall j :: 0 <= j < ENTRIES && j != i ==> dir.tables[j] == old(dir.tables[j])
    {
      hide Owned, TableCopied;
      panicked := false;
      SpareNone();
      if src.tables[i] == null {
        return;
      }
      var t;
      panicked, t := CloneOf(src.tables[i], kernel.tables[i]);
      ghost var own := Own();
      var physical := if t == src.tables[i] then src.tablesPhysical[i] else Or7(t.phys);
      dir.Put(i, t, physical);
      assert Own() == own;
    }

    /** The first n slots of dir are copies of those of src. */
    ghost predicate SlotsCopied(src: PageDirectory, kernel: PageDirectory, dir: PageDirectory, n: nat,
      before: seq<PageTable>)
      requires n <= src.tables.Length && n <= kernel.tables.Length && n <= dir.tables.Length
      reads memory, src.tables, kernel.tables, dir.tables
      reads set i | 0 <= i < n && src.tables[i] != null :: src.tables[i].pages
      reads set i | 0 <= i < n && dir.tables[i] != null :: dir.tables[i].pages
    {
      forall i :: 0 <= i < n ==> SlotCopied(src.tables[i], kernel.tables[i], dir.tables[i], before, memory[..])
    }

    lemma SlotsSurvive(src: PageDirectory, kernel: PageDirectory, dir: PageDirectory, n: nat, before: seq<PageTable>,
      used: set<nat>, m: seq<nat>)
      requires n <= src.tables.Length && n <= kernel.tables.Length && n <= dir.tables.Length && Kept(used, m)
      requires forall j :: 0 <= j < n ==> SlotCopied(src.tables[j], kernel.tables[j], dir.tables[j], before, m)
      requires forall j :: 0 <= j < n ==> TableInUse(src.tables[j], used) && TableInUse(dir.tables[j], used)
      ensures SlotsCopied(src, kernel, dir, n, before)
    {
      forall j | 0 <= j < n ensures SlotCopied(src.tables[j], kernel.tables[j], dir.tables[j], before, memory[..]) {
        SlotSurvives(src.tables[j], kernel.tables[j], dir.tables[j], before, used, m);
      }
    }

    /** The loop of clone_directory. */
    method CloneSlots(src: PageDirectory, kernel: PageDirectory, dir: PageDirectory) returns (panicked: bool)
      requires Valid() && src.Valid() && kernel.tables.Length == ENTRIES && dir.Valid() && Knows(src) && Knows(dir)
      requires forall j :: 0 <= j < ENTRIES ==> dir.tables[j] == null
      requires dir.tables != src.tables && dir.tables != kernel.tables
      requires dir.tablesPhysical !in {src.tablesPhysical, kernel.tablesPhysical, frames, memory}
      modifies this`made, frames, memory, dir.tables, dir.tablesPhysical
      ensures Valid() && old(made) <= made && dir.Valid() && Knows(dir)
      ensures panicked <==> old(Spare() < Needed(src, kernel, ENTRIES))
      ensures !panicked ==> Spare() == old(Spare() - Needed(src, kernel, ENTRIES))
      ensures !panicked ==> Kept(old(Used()), old(memory[..]))
      ensures !panicked ==> SlotsCopied(src, kernel, dir, ENTRIES, old(made))
    {
      ghost var used, m, spare, needed := Used(), memory[..], Spare(), Needed(src, kernel, ENTRIES);
      SpareNone();
      assert SlotsCopied(src, kernel, dir, 0, old(made)) && Knows(src) && Knows(dir);
      hide Knows, SlotsCopied;
      panicked := false;
      var i := 0;
      while i < ENTRIES
        invariant i <= ENTRIES && Valid() && old(made) <= made && dir.Valid() && Knows(dir) && Knows(src)
        invariant src.Valid()
        invariant Kept(used, m) && SlotsCopied(src, kernel, dir, i, old(made))
        invariant forall j :: i <= j < ENTRIES ==> dir.tables[j] == null
        invariant 0 <= Spare() == spare - Needed(src, kernel, i)
        invariant Needed(src, kernel, ENTRIES) == needed
      {
        panicked := CloneNext(src, kernel, dir, i, old(made), spare);
        if panicked {
          return;
        }
        i := i + 1;
      }
    }

    /** clone_directory. It panics exactly if the entries to copy that have a frame outnumber the free frames. */
    method CloneDirectory(src: PageDirectory, kernel: PageDirectory) returns (panicked: bool, dir: PageDirectory)
      requires Valid() && src.Valid() && kernel.Valid() && Knows(src) && Knows(kernel)
      modifies this`made, frames, memory
      ensures Valid() && old(made) <= made && fresh(dir) && fresh(dir.tables) && dir.Valid() && Knows(dir)
      ensures panicked <==> old(Spare() < Needed(src, kernel, ENTRIES))
      ensures !panicked ==> Spare() == old(Spare() - Needed(src, kernel, ENTRIES))
      ensures !panicked ==> Kept(old(Used()), old(memory[..]))
      ensures !panicked ==> SlotsCopied(src, kernel, dir, ENTRIES, old(made))
    {
      SpareNone();
      dir := new PageDirectory();
      panicked := CloneSlots(src, kernel, dir);
    }

    method CloneNext(src: PageDirectory, kernel: PageDirectory, dir: PageDirectory, i: nat,
      ghost before: seq<PageTable>,
      ghost spare: int)
      returns (panicked: bool)
      requires Valid() && i < ENTRIES && src.Valid() && kernel.tables.Length == ENTRIES && dir.Valid()
      requires Knows(src) && Knows(dir) && dir.tables[i] == null && before <= made
      requires dir.tables != src.tables && dir.tables != kernel.tables
      requires dir.tablesPhysical !in {src.tablesPhysical, kernel.tablesPhysical, frames, memory}
      requires SlotsCopied(src, kernel, dir, i, before) && Spare() == spare - Needed(src, kernel, i)
      modifies this`made, frames, memory, dir.tables, dir.tablesPhysical
      ensures Valid() && old(made) <= made && dir.Valid() && Knows(dir) && src.Valid() && Knows(src)
      ensures Needed(src, kernel, ENTRIES) == old(Needed(src, kernel, ENTRIES))
      ensures panicked ==> spare < Needed(src, kernel, ENTRIES)
      ensures !panicked ==> 0 <= Spare() == spare - Needed(src, kernel, i + 1)
      ensures !panicked ==> Kept(old(Used()), old(memory[..]))
      ensures !panicked ==> SlotsCopied(src, kernel, dir, i + 1, before)
      ensures forall j :: 0 <= j < ENTRIES && j != i ==> dir.tables[j] == old(dir.tables[j])
    {
      ghost var used, m := Used(), memory[..];
      hide Owned;
      TablesInUse();
      NeededGrows(src, kernel, i + 1, ENTRIES);
      panicked := CloneSlot(src, kernel, dir, i);
      SpareNone();
      if !panicked {
        SlotsSurvive(src, kernel, dir, i, before, used, m);
      }
    }
  }
}
