/** Physical memory by words of four bytes, and the copying of a frame in cpu/process.asm. */
module PhysicalMemory {
  import opened Machine

  const WORDS: nat := 1024  // words in a frame

  function FrameWords(m: seq<nat>, f: nat): (r: seq<nat>)
    requires f * WORDS + WORDS <= |m|
    ensures |r| == WORDS
  {
    m[f * WORDS..f * WORDS + WORDS]
  }

  /** All frames other than g are the same in both memories. */
  predicate OnlyFrame(m: seq<nat>, m': seq<nat>, g: nat) {
    |m| == |m'| && forall i :: 0 <= i < |m| && i / WORDS != g ==> m[i] == m'[i]
  }

  lemma OtherFrame(m: seq<nat>, m': seq<nat>, g: nat, f: nat)
    requires OnlyFrame(m, m', g) && f != g && f * WORDS + WORDS <= |m|
    ensures FrameWords(m', f) == FrameWords(m, f)
  {
    forall i | f * WORDS <= i < f * WORDS + WORDS ensures m'[i] == m[i] {
      assert i / WORDS == f;
    }
  }

  /** copy_page_physical: copies 1024 words from one frame to another. */
  method CopyPagePhysical(memory: array<nat>, source: nat, dest: nat)
    requires source % PAGE == 0 && source / 4 + WORDS <= memory.Length
    requires dest % PAGE == 0 && dest / 4 + WORDS <= memory.Length
    modifies memory
    ensures dest / PAGE * WORDS + WORDS <= memory.Length && source / PAGE * WORDS + WORDS <= memory.Length
    ensures FrameWords(memory[..], dest / PAGE) == old(FrameWords(memory[..], source / PAGE))
    ensures OnlyFrame(old(memory[..]), memory[..], dest / PAGE)
  {
    ghost var s: nat, d: nat := source / PAGE * WORDS, dest / PAGE * WORDS;
    assert source / 4 == s && dest / 4 == d;
    assert source / PAGE == dest / PAGE || s + WORDS <= d || d + WORDS <= s;
    ghost var m := memory[..];
    var ebx, ecx, edx := source / 4, dest / 4, WORDS;
    while edx > 0
      invariant 0 <= edx <= WORDS && ebx == s + WORDS - edx && ecx == d + WORDS - edx
      invariant forall i :: d <= i < ecx ==> memory[i] == m[i - d + s]
      invariant forall i :: 0 <= i < memory.Length && !(d <= i < ecx) ==> memory[i] == m[i]
    {
      var eax := memory[ebx];
      memory[ecx] := eax;
      ebx := ebx + 1;
      ecx := ecx + 1;
      edx := edx - 1;
    }
    forall i | 0 <= i < memory.Length && i / WORDS != dest / PAGE ensures m[i] == memory[i] {
      assert !(d <= i < ecx);
    }
    assert forall i :: 0 <= i < WORDS ==> FrameWords(memory[..], dest / PAGE)[i] == FrameWords(m, source / PAGE)[i];
  }
}
