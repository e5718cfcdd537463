/** The bytes of the kernel heap, and the headers and footers of cpu/kheap.h that lie in them.

    A header is 12 bytes: the magic number, the is_hole byte with three bytes of padding, and the size
    of the whole block. A footer is 8 bytes: the magic number and the address of its header. Words are
    stored with the least significant byte first. */
module HeapMemory {
  import opened Machine

  const MAGIC: nat := 0x123890AB
  const HEADER: nat := 12
  const FOOTER: nat := 8
  const OVERHEAD: nat := HEADER + FOOTER

  /** The number that the bytes from lo to hi stand for. */
  function Bytes(m: seq<byte>, lo: nat, hi: nat): nat
    requires lo <= hi <= |m|
    decreases hi - lo
  {
    if lo == hi then 0
    else
      var low: nat := m[lo];
      low + 0x100 * Bytes(m, lo + 1, hi)
  }

  function Word(m: seq<byte>, a: nat): nat
    requires a + 4 <= |m|
  {
    Bytes(m, a, a + 4)
  }

  /** The two memories agree on all bytes outside [lo, hi). */
  predicate SameOutside(m: seq<byte>, m': seq<byte>, lo: nat, hi: nat) {
    |m| == |m'| && forall i :: 0 <= i < |m| && !(lo <= i < hi) ==> m[i] == m'[i]
  }

  lemma SameWider(m: seq<byte>, m': seq<byte>, lo: nat, hi: nat, lo': nat, hi': nat)
    requires SameOutside(m, m', lo, hi) && lo' <= lo && hi <= hi'
    ensures SameOutside(m, m', lo', hi')
  {
  }

  lemma SameJoined(m: seq<byte>, m': seq<byte>, m'': seq<byte>, lo: nat, a: nat, b: nat, hi: nat)
    requires SameOutside(m, m', lo, a) && SameOutside(m', m'', b, hi) && lo <= b && a <= hi
    ensures SameOutside(m, m'', lo, hi)
  {
  }

  predicate SameOn(m: seq<byte>, m': seq<byte>, lo: nat, hi: nat) {
    |m| == |m'| && hi <= |m| && forall i :: lo <= i < hi ==> m[i] == m'[i]
  }

  predicate HeaderIs(m: seq<byte>, a: nat, hole: bool, size: nat) {
    && a + HEADER <= |m|
    && Word(m, a) == MAGIC
    && m[a + 4] == (if hole then 1 else 0)
    && Word(m, a + 8) == size
  }

  predicate FooterIs(m: seq<byte>, a: nat, header: nat) {
    && a + FOOTER <= |m|
    && Word(m, a) == MAGIC
    && Word(m, a + 4) == header
  }

  lemma {:induction false} BytesKept(m: seq<byte>, m': seq<byte>, lo: nat, hi: nat)
    requires lo <= hi && SameOn(m, m', lo, hi)
    ensures Bytes(m, lo, hi) == Bytes(m', lo, hi)
    decreases hi - lo
  {
    if lo < hi {
      BytesKept(m, m', lo + 1, hi);
    }
  }

  /** A word in front of the bytes that change stays. */
  lemma WordBefore(m: seq<byte>, m': seq<byte>, lo: nat, hi: nat, a: nat)
    requires SameOutside(m, m', lo, hi) && a + 4 <= lo && a + 4 <= |m|
    ensures Word(m', a) == Word(m, a)
  {
    BytesKept(m, m', a, a + 4);
  }

  /** What looks like a header behind the bytes that change still does. */
  lemma HeaderBehind(m: seq<byte>, m': seq<byte>, lo: nat, hi: nat, a: nat)
    requires SameOutside(m, m', lo, hi) && hi <= a && a + HEADER <= |m|
    ensures Word(m', a) == Word(m, a) && m'[a + 4] == m[a + 4]
  {
    BytesKept(m, m', a, a + 4);
  }

  lemma WordBytes(m: seq<byte>, a: nat)
    requires a + 4 <= |m|
    ensures var b0: nat, b1: nat, b2: nat, b3: nat := m[a], m[a + 1], m[a + 2], m[a + 3];
      Word(m, a) == b0 + 0x100 * b1 + 0x1_0000 * b2 + 0x100_0000 * b3
    ensures Word(m, a) < WORD
  {
    var b0: nat, b1: nat, b2: nat, b3: nat := m[a], m[a + 1], m[a + 2], m[a + 3];
    assert Bytes(m, a + 4, a + 4) == 0;
    assert Bytes(m, a + 3, a + 4) == b3;
    assert Bytes(m, a + 2, a + 4) == b2 + 0x100 * b3;
    assert Bytes(m, a + 1, a + 4) == b1 + 0x100 * b2 + 0x1_0000 * b3;
  }

  lemma HeaderKept(m: seq<byte>, m': seq<byte>, a: nat, hole: bool, size: nat)
    requires HeaderIs(m, a, hole, size) && SameOn(m, m', a, a + HEADER)
    ensures HeaderIs(m', a, hole, size)
  {
    BytesKept(m, m', a, a + 4);
    BytesKept(m, m', a + 8, a + HEADER);
  }

  lemma FooterKept(m: seq<byte>, m': seq<byte>, a: nat, header: nat)
    requires FooterIs(m, a, header) && SameOn(m, m', a, a + FOOTER)
    ensures FooterIs(m', a, header)
  {
    BytesKept(m, m', a, a + 4);
    BytesKept(m, m', a + 4, a + FOOTER);
  }

  method Write32(mem: array<byte>, a: nat, v: nat)
    requires a + 4 <= mem.Length && v < WORD
    modifies mem
    ensures Word(mem[..], a) == v
    ensures SameOutside(old(mem[..]), mem[..], a, a + 4)
  {
    mem[a] := v % 0x100;
    mem[a + 1] := v / 0x100 % 0x100;
    mem[a + 2] := v / 0x1_0000 % 0x100;
    mem[a + 3] := v / 0x100_0000;
    WordBytes(mem[..], a);
  }

  method WriteHeader(mem: array<byte>, a: nat, hole: bool, size: nat)
    requires a + HEADER <= mem.Length && size < WORD
    modifies mem
    ensures HeaderIs(mem[..], a, hole, size)
    ensures SameOutside(old(mem[..]), mem[..], a, a + HEADER)
  {
    Write32(mem, a, MAGIC);
    ghost var m := mem[..];
    mem[a + 4] := if hole then 1 else 0;
    Write32(mem, a + 8, size);
    BytesKept(m, mem[..], a, a + 4);
  }

  method WriteFooter(mem: array<byte>, a: nat, header: nat)
    requires a + FOOTER <= mem.Length && header < WORD
    modifies mem
    ensures FooterIs(mem[..], a, header)
    ensures SameOutside(old(mem[..]), mem[..], a, a + FOOTER)
  {
    Write32(mem, a, MAGIC);
    ghost var m := mem[..];
    Write32(mem, a + 4, header);
    BytesKept(m, mem[..], a, a + 4);
  }

  /** Overwrites the size in a header. */
  method WriteSize(mem: array<byte>, a: nat, size: nat, ghost hole: bool, ghost was: nat)
    requires HeaderIs(mem[..], a, hole, was) && size < WORD
    modifies mem
    ensures HeaderIs(mem[..], a, hole, size)
    ensures SameOutside(old(mem[..]), mem[..], a + 8, a + HEADER)
  {
    Write32(mem, a + 8, size);
    BytesKept(old(mem[..]), mem[..], a, a + 4);
  }

  /** Overwrites the header address in a footer. */
  method WriteBack(mem: array<byte>, a: nat, header: nat, ghost was: nat)
    requires FooterIs(mem[..], a, was) && header < WORD
    modifies mem
    ensures FooterIs(mem[..], a, header)
    ensures SameOutside(old(mem[..]), mem[..], a + 4, a + FOOTER)
  {
    Write32(mem, a + 4, header);
    BytesKept(old(mem[..]), mem[..], a, a + 4);
  }

  method Read32(mem: array<byte>, a: nat) returns (w: nat)
    requires a + 4 <= mem.Length
    ensures w == Word(mem[..], a) && w < WORD
  {
    WordBytes(mem[..], a);
    var b0: nat, b1: nat, b2: nat, b3: nat := mem[a], mem[a + 1], mem[a + 2], mem[a + 3];
    w := b0 + 0x100 * b1 + 0x1_0000 * b2 + 0x100_0000 * b3;
  }
}
