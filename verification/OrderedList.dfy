/**
 The sorted array behind the heap's hole index (Util/OrderedList.h).

 `Inserted` and `Removed` say on sequences what the two loops do to the array; the
 lemmas say what that means for a sorted list.  The order is a parameter of `Insert`,
 because the kernel's predicate reads block sizes out of memory that changes between calls.
 */
module OrderedLists {

  /** What a less-than predicate must satisfy for sorting to make sense. */
  ghost predicate StrictWeakOrder<T(!new)>(less: (T, T) -> bool) {
    && (forall a, b :: less(a, b) ==> !less(b, a))
    && (forall a, b, c :: less(a, c) ==> less(a, b) || less(b, c))
  }

  ghost predicate SortedBy<T(!new)>(s: seq<T>, less: (T, T) -> bool) {
    forall i, j :: 0 <= i < j < |s| ==> !less(s[j], s[i])
  }

  /** The first position whose element is not less than `item`. */
  function InsertPoint<T>(s: seq<T>, item: T, less: (T, T) -> bool): (k: nat)
    ensures k <= |s|
    ensures forall i :: 0 <= i < k ==> less(s[i], item)
    ensures k < |s| ==> !less(s[k], item)
  {
    if s == [] || !less(s[0], item) then 0 else 1 + InsertPoint(s[1..], item, less)
  }

  function Inserted<T>(s: seq<T>, item: T, less: (T, T) -> bool): seq<T> {
    var k := InsertPoint(s, item, less);
    s[..k] + [item] + s[k..]
  }

  function Removed<T>(s: seq<T>, k: nat): seq<T>
    requires k < |s|
  {
    s[..k] + s[k + 1..]
  }

  lemma FirstNotLess<T>(s: seq<T>, item: T, less: (T, T) -> bool, k: nat)
    requires k <= |s| && (forall i :: 0 <= i < k ==> less(s[i], item)) && (k < |s| ==> !less(s[k], item))
    ensures InsertPoint(s, item, less) == k
  {
  }

  /** The list with everything from the insertion point on moved up by one. */
  lemma Shifted<T>(s: seq<T>, item: T, less: (T, T) -> bool, r: seq<T>)
    requires |r| == |s| + 1 && r[InsertPoint(s, item, less)] == item
    requires forall i :: 0 <= i < InsertPoint(s, item, less) ==> r[i] == s[i]
    requires forall i :: InsertPoint(s, item, less) < i < |r| ==> r[i] == s[i - 1]
    ensures r == Inserted(s, item, less)
  {
  }

  lemma AtLeastTransitive<T(!new)>(a: T, b: T, c: T, less: (T, T) -> bool)
    requires StrictWeakOrder(less)
    ensures !less(a, b) && !less(b, c) ==> !less(a, c)
  {
  }

  /** Insertion keeps a sorted list sorted and adds exactly one item. */
  lemma InsertSorts<T(!new)>(s: seq<T>, item: T, less: (T, T) -> bool)
    requires StrictWeakOrder(less) && SortedBy(s, less)
    ensures SortedBy(Inserted(s, item, less), less)
    ensures multiset(Inserted(s, item, less)) == multiset(s) + multiset{item}
  {
    hide InsertPoint;
    var k := InsertPoint(s, item, less);
    var r := Inserted(s, item, less);
    assert s == s[..k] + s[k..];
    forall i, j | 0 <= i < j < |r| ensures !less(r[j], r[i]) {
      if i == k {
        AtLeastTransitive(s[j - 1], s[k], item, less);
      }
    }
  }

  /** Removal keeps a sorted list sorted and takes exactly one item away. */
  lemma RemoveSorts<T(!new)>(s: seq<T>, k: nat, less: (T, T) -> bool)
    requires k < |s|
    ensures SortedBy(s, less) ==> SortedBy(Removed(s, k), less)
    ensures multiset(Removed(s, k)) == multiset(s) - multiset{s[k]}
  {
    assert s == s[..k] + [s[k]] + s[k + 1..];
    var r := Removed(s, k);
    forall i | 0 <= i < |r| ensures r[i] == s[if i < k then i else i + 1] {
    }
  }

  lemma Dropped<T>(a: seq<T>, item: T, b: seq<T>)
    ensures Removed(a + [item] + b, |a|) == a + b
  {
    assert (a + [item] + b)[|a| + 1..] == b;
  }

  lemma Rejoined<T>(s: seq<T>, k: nat)
    requires k <= |s|
    ensures s[..k] + s[k..] == s
  {
  }

  /** Removing an item at the place where it was inserted gives the old list back. */
  lemma InsertThenRemove<T>(s: seq<T>, item: T, less: (T, T) -> bool)
    ensures Removed(Inserted(s, item, less), InsertPoint(s, item, less)) == s
  {
    hide InsertPoint;
    var k := InsertPoint(s, item, less);
    Dropped(s[..k], item, s[k..]);
    Rejoined(s, k);
  }

  class OrderedList<T(0)> {
    const elements: array<T>
    var size: nat

    ghost predicate Valid()
      reads this
    {
      size <= elements.Length
    }

    function Contents(): (s: seq<T>)
      requires Valid()
      reads this, elements
      ensures |s| == size
    {
      elements[..size]
    }

    constructor (maxSize: nat)
      ensures Valid() && fresh(elements) && elements.Length == maxSize
      ensures Contents() == []
    {
      elements := new T[maxSize];
      size := 0;
    }

    method GetItemAtIndex(index: nat) returns (item: T)
      requires Valid() && index < size
      ensures item == Contents()[index]
    {
      item := elements[index];
    }

    /** The source shifts one slot past the last element, so a spare slot is required. */
    method Insert(item: T, less: (T, T) -> bool)
      requires Valid() && size < elements.Length
      modifies this, elements
      ensures Valid() && size == old(size) + 1
      ensures Contents() == Inserted(old(Contents()), item, less)
    {
      hide Inserted, InsertPoint;
      ghost var s := Contents();
      var at := 0;
      while at < size && less(elements[at], item)
        invariant at <= size
        invariant forall i :: 0 <= i < at ==> less(s[i], item)
      {
        at := at + 1;
      }
      ghost var k := at;
      FirstNotLess(s, item, less, k);
      if at == size {
        elements[size] := item;
        size := size + 1;
      } else {
        var tmp := elements[at];
        elements[at] := item;
        while at < size
          invariant k <= at <= size == old(size)
          invariant forall i :: 0 <= i < k ==> elements[i] == s[i]
          invariant elements[k] == item
          invariant forall i :: k < i <= at ==> elements[i] == s[i - 1]
          invariant forall i :: at < i < size ==> elements[i] == s[i]
          invariant at < size ==> tmp == s[at]
        {
          at := at + 1;
          var tmp2 := elements[at];
          elements[at] := tmp;
          tmp := tmp2;
        }
        size := size + 1;
      }
      Shifted(s, item, less, Contents());
    }

    /** The source reads one slot past the last element, so that slot must exist. */
    method Remove(index: nat)
      requires Valid() && index < size < elements.Length
      modifies this, elements
      ensures Valid() && size == old(size) - 1
      ensures Contents() == Removed(old(Contents()), index)
    {
      ghost var s := Contents();
      var i := index;
      while i < size
        invariant index <= i <= size == old(size)
        invariant forall k :: 0 <= k < index ==> elements[k] == s[k]
        invariant forall k :: index <= k < i && k + 1 < size ==> elements[k] == s[k + 1]
        invariant forall k :: i <= k < size ==> elements[k] == s[k]
      {
        elements[i] := elements[i + 1];
        i := i + 1;
      }
      size := size - 1;
      assert elements[..size] == Removed(s, index);
    }
  }
}
