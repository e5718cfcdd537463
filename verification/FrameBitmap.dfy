/** The bit table of physical frames in cpu/paging.c: 32-bit words whose bits say which frames are in use. */
module FrameBitmap {
  import opened Machine

  const FULL: nat := 0xFFFF_FFFF

  // ---------------------------------------------------------------------------------------------
  // Single bits of a word

  /** Whether w & (0x1 << j) is non-zero. */
  predicate Bit(w: nat, j: nat) {
    if j == 0 then w % 2 == 1 else Bit(w / 2, j - 1)
  }

  /** w | (0x1 << j) */
  function WithBit(w: nat, j: nat): nat {
    if j == 0 then w / 2 * 2 + 1 else WithBit(w / 2, j - 1) * 2 + w % 2
  }

  /** w & ~(0x1 << j) */
  function WithoutBit(w: nat, j: nat): nat {
    if j == 0 then w / 2 * 2 else WithoutBit(w / 2, j - 1) * 2 + w % 2
  }

  lemma {:induction false} WithBitSets(w: nat, i: nat, j: nat)
    ensures Bit(WithBit(w, i), j) <==> i == j || Bit(w, j)
    ensures Bit(WithoutBit(w, i), j) <==> i != j && Bit(w, j)
  {
    if i > 0 && j > 0 {
      WithBitSets(w / 2, i - 1, j - 1);
    }
  }

  /** A word of n bits stays one. */
  lemma {:induction false} WithBitFits(w: nat, i: nat, n: nat)
    requires w < Pow2(n) && i < n
    ensures WithBit(w, i) < Pow2(n) && WithoutBit(w, i) <= w
  {
    if i > 0 {
      WithBitFits(w / 2, i - 1, n - 1);
    }
  }

  predicate AllBits(w: nat, n: nat) {
    forall j :: 0 <= j < n ==> Bit(w, j)
  }

  /** The only word of n bits with all of them set is the one that is all ones. */
  lemma {:induction false} AllOnes(w: nat, n: nat)
    requires w < Pow2(n)
    ensures w == Pow2(n) - 1 <==> AllBits(w, n)
  {
    if n > 0 {
      AllOnes(w / 2, n - 1);
      if AllBits(w, n) {
        assert Bit(w, 0);
        forall j | 0 <= j < n - 1 ensures Bit(w / 2, j) {
          assert Bit(w, j + 1);
        }
      }
      if AllBits(w / 2, n - 1) && w % 2 == 1 {
        forall j | 0 <= j < n ensures Bit(w, j) {
          assert j > 0 ==> Bit(w / 2, j - 1);
        }
      }
    }
  }

  // ---------------------------------------------------------------------------------------------
  // The table

  predicate Words(bits: seq<nat>) {
    forall i :: 0 <= i < |bits| ==> bits[i] <= FULL
  }

  /** Frame f is marked as used. */
  predicate Marked(bits: seq<nat>, f: nat) {
    f / 32 < |bits| && Bit(bits[f / 32], f % 32)
  }

  lemma MarkOne(bits: seq<nat>, bits': seq<nat>, f: nat, g: nat)
    requires f / 32 < |bits| && bits' == bits[f / 32 := WithBit(bits[f / 32], f % 32)]
    ensures Marked(bits', g) <==> g == f || Marked(bits, g)
  {
    WithBitSets(bits[f / 32], f % 32, g % 32);
  }

  lemma UnmarkOne(bits: seq<nat>, bits': seq<nat>, f: nat, g: nat)
    requires f / 32 < |bits| && bits' == bits[f / 32 := WithoutBit(bits[f / 32], f % 32)]
    ensures Marked(bits', g) <==> g != f && Marked(bits, g)
  {
    WithBitSets(bits[f / 32], f % 32, g % 32);
  }

  /** set_frame: marks the frame of an address, and no other. */
  method SetFrame(frames: array<nat>, address: nat)
    requires address / PAGE / 32 < frames.Length && Words(frames[..])
    modifies frames
    ensures Words(frames[..])
    ensures forall g :: Marked(frames[..], g) <==> g == address / PAGE || Marked(old(frames[..]), g)
  {
    var frame := address / PAGE;
    var idx := frame / 32;
    var off := frame % 32;
    WordSize();
    WithBitFits(frames[idx], off, 32);
    ghost var bits := frames[..];
    frames[idx] := WithBit(frames[idx], off);
    forall g ensures Marked(frames[..], g) <==> g == frame || Marked(bits, g) {
      MarkOne(bits, frames[..], frame, g);
    }
  }

  /** clear_frame: unmarks the frame of an address, and no other. */
  method ClearFrame(frames: array<nat>, address: nat)
    requires address / PAGE / 32 < frames.Length && Words(frames[..])
    modifies frames
    ensures Words(frames[..])
    ensures forall g :: Marked(frames[..], g) <==> g != address / PAGE && Marked(old(frames[..]), g)
  {
    var frame := address / PAGE;
    var idx := frame / 32;
    var off := frame % 32;
    WordSize();
    WithBitFits(frames[idx], off, 32);
    ghost var bits := frames[..];
    frames[idx] := WithoutBit(frames[idx], off);
    forall g ensures Marked(frames[..], g) <==> g != frame && Marked(bits, g) {
      UnmarkOne(bits, frames[..], frame, g);
    }
  }

  method TestFrame(frames: array<nat>, address: nat) returns (used: bool)
    requires address / PAGE / 32 < frames.Length
    ensures used <==> Marked(frames[..], address / PAGE)
  {
    var frame := address / PAGE;
    used := Bit(frames[frame / 32], frame % 32);
  }

  /** first_frame: the lowest frame that is not marked. A word that is all ones is skipped at once. When no
      frame is free the loop of the code ends without a return; its caller expects -1. */
  method FirstFrame(frames: array<nat>, nframes: nat) returns (f: int)
    requires nframes / 32 <= frames.Length && Words(frames[..])
    ensures f == -1 || (0 <= f < nframes && !Marked(frames[..], f))
    ensures forall g :: 0 <= g < (if f == -1 then nframes / 32 * 32 else f) ==> Marked(frames[..], g)
  {
    var i := 0;
    while i < nframes / 32
      invariant i <= nframes / 32
      invariant forall g :: 0 <= g < i * 32 ==> Marked(frames[..], g)
    {
      WordSize();
      AllOnes(frames[i], 32);
      if frames[i] != FULL {
        var j := 0;
        while j < 32
          invariant j <= 32
          invariant forall k :: 0 <= k < j ==> Bit(frames[i], k)
          invariant forall g :: 0 <= g < i * 32 + j ==> Marked(frames[..], g)
        {
          if !Bit(frames[i], j) {
            return i * 32 + j;
          }
          j := j + 1;
        }
        assert false;
      }
      forall g | 0 <= g < (i + 1) * 32 ensures Marked(frames[..], g) {
        assert i * 32 <= g ==> Bit(frames[i], g % 32);
      }
      i := i + 1;
    }
    f := -1;
  }
}
