/** Who owns which physical frame, over any run of alloc_frame and free_frame of cpu/paging.c.

    E stands for the page entries. An entry whose frame is 0 owns none; frame 0 itself is taken by virtual page 0
    at boot and stays reserved. */
module FrameOwnership {
  import opened Machine

  /** The frames marked in the bit table and the frame held by every page entry. */
  datatype State<!E(==)> = State(used: set<nat>, held: map<E, nat>)

  datatype Action<E> = Allocate(e: E) | Release(e: E)

  /** A frame is marked exactly if it is frame 0 or held by an entry, and no two entries hold the same frame. */
  ghost predicate Owned<E(!new)>(s: State<E>) {
    && 0 in s.used
    && (forall e :: e in s.held ==> s.held[e] == 0 || s.held[e] in s.used)
    && (forall f :: f in s.used && f != 0 ==> exists e :: e in s.held && s.held[e] == f)
    && (forall e, e' :: e in s.held && e' in s.held && s.held[e] == s.held[e'] != 0 ==> e == e')
  }

  /** The lowest frame from f on that is not marked, or n. */
  function LowestFree(used: set<nat>, f: nat, n: nat): (r: nat)
    requires f <= n
    ensures f <= r <= n && (r < n ==> r !in used) && forall g :: f <= g < r ==> g in used
    decreases n - f
  {
    if f == n || f !in used then f else LowestFree(used, f + 1, n)
  }

  lemma LowestIs(used: set<nat>, k: nat, n: nat)
    requires k < n && forall f :: f in used <==> 0 <= f < k
    ensures LowestFree(used, 0, n) == k
  {
    assert k !in used;
    var r := LowestFree(used, 0, n);
    assert r < k ==> r in used;
  }

  function FramesBelow(n: nat): (s: set<nat>)
    ensures |s| == n && forall f: nat :: f in s <==> f < n
  {
    if n == 0 then {} else FramesBelow(n - 1) + {n - 1}
  }

  /** No frame is free exactly if as many are marked as there are. */
  lemma FullWhen(used: set<nat>, n: nat)
    requires forall f :: f in used ==> f < n
    ensures |used| <= n
    ensures LowestFree(used, 0, n) == n <==> |used| == n
  {
    var all := FramesBelow(n);
    assert all == used + (all - used);
    var r := LowestFree(used, 0, n);
    if r < n {
      assert r in all - used;
    } else {
      assert all - used == {};
    }
  }

  function FreedBit(v: Variant, frame: nat): nat {
    match v
    case AsWritten => frame / PAGE
    case Intended => frame * PAGE / PAGE
  }

  /** One call on an entry. A call that finds no free frame stops the kernel and changes nothing. */
  function Step<E>(v: Variant, n: nat, s: State<E>, a: Action<E>): State<E>
    requires a.e in s.held
  {
    match a
    case Allocate(e) =>
      var f := LowestFree(s.used, 0, n);
      if s.held[e] != 0 || f == n then s else State(s.used + {f}, s.held[e := f])
    case Release(e) =>
      if s.held[e] == 0 then s else State(s.used - {FreedBit(v, s.held[e])}, s.held[e := 0])
  }

  lemma ReleaseIs<E>(v: Variant, n: nat, s: State<E>, e: E, t: State<E>)
    requires e in s.held && s.held[e] != 0
    requires t.used == s.used - {FreedBit(v, s.held[e])} && t.held == s.held[e := 0]
    ensures t == Step(v, n, s, Release(e))
  {
  }

  lemma AllocateKeeps<E(!new)>(v: Variant, n: nat, s: State<E>, e: E)
    requires Owned(s) && e in s.held
    ensures Owned(Step(v, n, s, Allocate(e)))
  {
    var t := Step(v, n, s, Allocate(e));
    var f := LowestFree(s.used, 0, n);
    if t != s {
      forall g | g in t.used && g != 0 ensures exists x :: x in t.held && t.held[x] == g {
        if g == f {
          assert t.held[e] == g;
        } else {
          var x :| x in s.held && s.held[x] == g;
          assert t.held[x] == g;
        }
      }
    }
  }

  /** What an allocation for an entry that owns no frame does: with every frame marked nothing, else it marks one
      more and the entry owns it. */
  lemma FreshFor<E(!new)>(n: nat, s: State<E>, e: E)
    requires Owned(s) && e in s.held && s.held[e] == 0 && forall f :: f in s.used ==> f < n
    ensures var t := Step(Intended, n, s, Allocate(e));
      && Owned(t) && e in t.held
      && if |s.used| == n then t == s
         else 0 < t.held[e] < n && t.held[e] !in s.used && t.used == s.used + {t.held[e]} && |t.used| == |s.used| + 1
    ensures LowestFree(s.used, 0, n) == n <==> |s.used| == n
  {
    AllocateKeeps(Intended, n, s, e);
    FullWhen(s.used, n);
  }

  /** Freeing keeps the ownership if the right bit is cleared. Of the code as written that can be said only of calls
      that do nothing: a frame whose number is its own number divided by 0x1000 is frame 0. */
  lemma ReleaseKeepsExactly<E(!new)>(v: Variant, n: nat, s: State<E>, e: E)
    requires Owned(s) && e in s.held
    ensures Owned(Step(v, n, s, Release(e))) <==> v.Intended? || s.held[e] == 0
  {
    var f, t := s.held[e], Step(v, n, s, Release(e));
    if f != 0 {
      if v.AsWritten? {
        assert f in s.used && f / PAGE != f;
        assert f in t.used;
        assert forall x :: x in t.held ==> t.held[x] != f;
      } else {
        assert FreedBit(v, f) == f;
        forall g | g in t.used && g != 0 ensures exists x :: x in t.held && t.held[x] == g {
          var x :| x in s.held && s.held[x] == g;
          assert t.held[x] == g;
        }
      }
    }
  }

  /** With 16 MB of memory, freeing any frame as written leaves it marked and gives frame 0 away instead. The next
      allocation marks frame 0 and writes it into an entry, which then still counts as having none. */
  lemma FrameZeroLost<E(!new)>(n: nat, s: State<E>, e: E, e': E)
    requires Owned(s) && 0 < n <= PAGE && e in s.held && e' in s.held
    requires 0 < s.held[e] < n && s.held[e'] == 0
    ensures var t := Step(AsWritten, n, s, Release(e));
      && s.held[e] in t.used && 0 !in t.used
      && Step(AsWritten, n, t, Allocate(e')).held == t.held
      && 0 in Step(AsWritten, n, t, Allocate(e')).used
  {
    var t := Step(AsWritten, n, s, Release(e));
    assert LowestFree(t.used, 0, n) == 0;
    assert t.held[e' := 0] == t.held;
  }

  /** t has the entries of s and others that own nothing. */
  ghost predicate BlankMore<E(!new)>(s: State<E>, t: State<E>) {
    && t.used == s.used
    && (forall e :: e in s.held ==> e in t.held && t.held[e] == s.held[e])
    && (forall e :: e in t.held && e !in s.held ==> t.held[e] == 0)
  }

  /** Entries that own nothing may come along at any time. */
  lemma BlankAdded<E(!new)>(s: State<E>, t: State<E>)
    requires Owned(s) && BlankMore(s, t)
    ensures Owned(t)
  {
    forall f | f in t.used && f != 0 ensures exists e :: e in t.held && t.held[e] == f {
      var e :| e in s.held && s.held[e] == f;
      assert t.held[e] == f;
    }
  }

  function Run<E>(v: Variant, n: nat, s: State<E>, acts: seq<Action<E>>): (t: State<E>)
    requires forall a :: a in acts ==> a.e in s.held
    ensures t.held.Keys == s.held.Keys
    decreases |acts|
  {
    if acts == [] then s
    else
      assert acts[|acts| - 1] in acts;
      Step(v, n, Run(v, n, s, acts[..|acts| - 1]), acts[|acts| - 1])
  }

  /** The entries that own a frame. */
  function Owners<E>(s: State<E>): set<E> {
    set e | e in s.held && s.held[e] != 0
  }

  /** Over every run, ownership is kept, and the marked frames number one more than the entries that own one. */
  lemma {:induction false} RunKeeps<E(!new)>(n: nat, s: State<E>, acts: seq<Action<E>>)
    requires Owned(s) && forall a :: a in acts ==> a.e in s.held
    ensures Owned(Run(Intended, n, s, acts))
    ensures |Run(Intended, n, s, acts).used| == 1 + |Owners(Run(Intended, n, s, acts))|
    decreases |acts|
  {
    if acts != [] {
      var a := acts[|acts| - 1];
      assert a in acts;
      RunKeeps(n, s, acts[..|acts| - 1]);
      var t := Run(Intended, n, s, acts[..|acts| - 1]);
      if a.Allocate? {
        AllocateKeeps(Intended, n, t, a.e);
      } else {
        ReleaseKeepsExactly(Intended, n, t, a.e);
      }
    }
    Counted(Run(Intended, n, s, acts));
  }

  lemma Counted<E(!new)>(s: State<E>)
    requires Owned(s)
    ensures |s.used| == 1 + |Owners(s)|
  {
    assert s.used == {0} + (s.used - {0});
    OneToOne(s.held, s.used - {0}, Owners(s));
  }

  /** Entries and frames that pair off are equally many. */
  lemma {:induction false} OneToOne<E(!new)>(held: map<E, nat>, frames: set<nat>, es: set<E>)
    requires forall e :: e in es ==> e in held && held[e] in frames
    requires forall f :: f in frames ==> exists e :: e in es && held[e] == f
    requires forall e, e' :: e in es && e' in es && e in held && e' in held && held[e] == held[e'] ==> e == e'
    ensures |frames| == |es|
    decreases |es|
  {
    if es == {} {
      assert frames == {};
    } else {
      var e :| e in es;
      forall f | f in frames - {held[e]} ensures exists x :: x in es - {e} && held[x] == f {
        var x :| x in es && held[x] == f;
        assert x != e;
      }
      OneToOne(held, frames - {held[e]}, es - {e});
    }
  }
}
