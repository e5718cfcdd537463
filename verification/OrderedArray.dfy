/** The ordered array of cpu/ordered_array.c: items are kept in insertion order of a less-than predicate,
    in an array that insert and remove shift in place. */
module OrderedArray {

  type Order = (nat, nat) -> bool

  /** What less_than has to be for "sorted" to make sense. */
  ghost predicate StrictWeak(less: Order) {
    && (forall a, b :: less(a, b) ==> !less(b, a))
    && (forall a, b, c :: less(a, c) ==> less(a, b) || less(b, c))
  }

  ghost predicate Sorted(s: seq<nat>, less: Order) {
    forall i, j :: 0 <= i < j < |s| ==> !less(s[j], s[i])
  }

  /** The first position whose item is not less than x. */
  function Position(s: seq<nat>, x: nat, less: Order): (k: nat)
    ensures k <= |s|
    ensures k < |s| ==> !less(s[k], x)
    ensures forall i :: 0 <= i < k ==> less(s[i], x)
  {
    if s == [] || !less(s[0], x) then 0 else 1 + Position(s[1..], x, less)
  }

  function Inserted(s: seq<nat>, x: nat, less: Order): seq<nat> {
    var k := Position(s, x, less);
    s[..k] + [x] + s[k..]
  }

  function Removed(s: seq<nat>, i: nat): seq<nat>
    requires i < |s|
  {
    s[..i] + s[i + 1..]
  }

  /** Insertion adds the item, once. */
  lemma InsertedItems(s: seq<nat>, x: nat, less: Order)
    ensures multiset(Inserted(s, x, less)) == multiset(s) + multiset{x}
  {
    assert s == s[..Position(s, x, less)] + s[Position(s, x, less)..];
  }

  /** Insertion keeps a sorted array sorted. */
  lemma InsertedSorted(s: seq<nat>, x: nat, less: Order)
    requires StrictWeak(less) && Sorted(s, less)
    ensures Sorted(Inserted(s, x, less), less)
  {
    var k, t := Position(s, x, less), Inserted(s, x, less);
    forall i, j | 0 <= i < j < |t| ensures !less(t[j], t[i]) {
      var i', j' := if i <= k then i else i - 1, if j <= k then j else j - 1;
      if i == k {
        assert !less(s[k], x);
        assert j' > k ==> !less(s[j'], s[k]);
      } else if j == k {
        assert less(s[i'], x);
      }
    }
  }

  /** Removal takes away one occurrence of the item. */
  lemma RemovedItems(s: seq<nat>, i: nat)
    requires i < |s|
    ensures multiset(s) == multiset(Removed(s, i)) + multiset{s[i]}
  {
    assert s == s[..i] + [s[i]] + s[i + 1..];
  }

  /** Removal keeps a sorted array sorted. */
  lemma RemovedSorted(s: seq<nat>, i: nat, less: Order)
    requires i < |s| && Sorted(s, less)
    ensures Sorted(Removed(s, i), less)
  {
  }

  class OrderedArray {
    const data: array<nat>
    var size: nat
    ghost var items: seq<nat>  // the items, in order

    ghost predicate Valid()
      reads this, data
    {
      size <= data.Length && items == data[..size]
    }

    ghost function Contents(): seq<nat>
      reads this
    {
      items
    }

    constructor (maxSize: nat)
      ensures Valid() && fresh(data) && data.Length == maxSize && Contents() == []
    {
      data := new nat[maxSize](_ => 0);
      size := 0;
      items := [];
    }

    /** Shifts the items from the insertion point on by one slot, carrying the displaced item along. */
    method Insert(item: nat, less: Order)
      requires Valid() && size < data.Length
      modifies this, data
      ensures Valid() && Contents() == Inserted(old(Contents()), item, less)
      ensures size == old(size) + 1
    {
      ghost var was := Contents();
      ghost var k := Position(was, item, less);
      var i := 0;
      while i < size && less(data[i], item)
        invariant i <= k
      {
        i := i + 1;
      }
      assert i == k;
      if i == size {
        data[size] := item;
        size := size + 1;
        items := data[..size];
      } else {
        var tmp := data[i];
        data[i] := item;
        while i < size
          invariant k <= i <= size == |was| < data.Length
          invariant i < |was| ==> tmp == was[i]
          invariant data[..k] == was[..k] && data[k] == item
          invariant forall j :: k < j <= i ==> data[j] == was[j - 1]
          invariant forall j :: i < j < |was| ==> data[j] == was[j]
        {
          i := i + 1;
          var tmp2 := data[i];
          data[i] := tmp;
          tmp := tmp2;
        }
        size := size + 1;
        items := data[..size];
      }
    }

    method Lookup(i: nat) returns (item: nat)
      requires Valid() && i < size
      ensures item == Contents()[i]
    {
      item := data[i];
    }

    /** Shifts the items behind slot i down by one slot; the last shift reads the slot behind them. */
    method Remove(i: nat)
      requires Valid() && i < size < data.Length
      modifies this, data
      ensures Valid() && Contents() == Removed(old(Contents()), i)
      ensures size == old(size) - 1
    {
      ghost var was := Contents();
      var j := i;
      while j < size
        invariant i <= j <= size == |was| < data.Length
        invariant data[..i] == was[..i]
        invariant forall k :: i <= k < j && k + 1 < |was| ==> data[k] == was[k + 1]
        invariant forall k :: j <= k < |was| ==> data[k] == was[k]
      {
        data[j] := data[j + 1];
        j := j + 1;
      }
      size := size - 1;
      items := data[..size];
    }

    /** The search loop of the heap: the first slot that holds the item, or the number of items. */
    method Find(item: nat) returns (i: nat)
      requires Valid()
      ensures i <= size
      ensures i < size ==> Contents()[i] == item
      ensures i == size <==> item !in Contents()
    {
      i := 0;
      while i < size && data[i] != item
        invariant i <= size
        invariant item !in items[..i]
      {
        i := i + 1;
      }
    }
  }
}
