/** Core/IListExtensions.cs: a linear search over a window of a list. The
    list is only read, so it is a sequence; a comparer is a function. */
module Lists {
  import opened Wrappers

  /** The scan `for (i = start; i < end; i++)`: the first index whose
      element equals `item`, -1 once the window is exhausted, or the
      indexer's exception at the first position outside the list. */
  function Scan<T>(source: seq<T>, item: T, i: int, end: int, eq: (T, T) -> bool): (r: Result<int>)
    ensures r.Success? && r.value != -1 ==>
      0 <= i <= r.value < end && r.value < |source| && eq(source[r.value], item)
    ensures r.Success? && r.value != -1 ==> forall j :: i <= j < r.value ==> !eq(source[j], item)
    ensures r.Success? && r.value == -1 ==> i >= end || (0 <= i && end <= |source|)
    ensures r.Success? && r.value == -1 ==> forall j :: i <= j < end ==> !eq(source[j], item)
    ensures r.Failure? ==> r.error == ArgumentOutOfRange("index") && i < end && (i < 0 || end > |source|)
    decreases end - i
  {
    if i >= end then Success(-1)
    else if i < 0 || i >= |source| then Failure(ArgumentOutOfRange("index"))
    else if eq(source[i], item) then Success(i)
    else Scan(source, item, i + 1, end, eq)
  }

  /** Inside the list the scan never fails: it finds an index exactly when
      some element of the window equals the item. */
  lemma ScanWithinList<T>(source: seq<T>, item: T, i: int, end: int, eq: (T, T) -> bool)
    requires 0 <= i && end <= |source|
    ensures Scan(source, item, i, end, eq).Success?
    ensures Scan(source, item, i, end, eq).value == -1 <==> forall j :: i <= j < end ==> !eq(source[j], item)
  {
  }

  /** `IndexOf(item, startIndex, count, comparer)`: `startIndex + count` is
      computed in unchecked `int` arithmetic. */
  method IndexOfRange<T>(source: seq<T>, item: T, startIndex: int, count: int, eq: (T, T) -> bool) returns (r: Result<int>)
    requires Int32Min <= startIndex <= Int32Max && Int32Min <= count <= Int32Max
    ensures r == Scan(source, item, startIndex, Wrap32(startIndex + count), eq)
  {
    var num := Wrap32(startIndex + count);
    var i := startIndex;
    while i < num
      invariant Scan(source, item, i, num, eq) == Scan(source, item, startIndex, num, eq)
      decreases num - i
    {
      if i < 0 || i >= |source| {
        return Failure(ArgumentOutOfRange("index"));
      }
      if eq(source[i], item) {
        return Success(i);
      }
      i := i + 1;
    }
    return Success(-1);
  }

  /** A window inside the list: the smallest matching index in it, or -1. */
  lemma IndexOfRangeInsideList<T>(source: seq<T>, item: T, startIndex: int, count: int, eq: (T, T) -> bool)
    requires 0 <= startIndex && 0 <= count && startIndex + count <= |source| <= Int32Max
    ensures var r := Scan(source, item, startIndex, Wrap32(startIndex + count), eq);
      r.Success? &&
      (r.value == -1 <==> forall j :: startIndex <= j < startIndex + count ==> !eq(source[j], item))
  {
    ScanWithinList(source, item, startIndex, startIndex + count, eq);
  }

  /** When `startIndex + count` overflows, the bound wraps below the start
      and nothing is searched: a match at the start is not found. */
  lemma OverflowingWindowFindsNothing<T>(source: seq<T>, item: T, eq: (T, T) -> bool)
    requires 2 <= |source| && eq(source[1], item)
    ensures Scan(source, item, 1, Wrap32(1 + Int32Max), eq) == Success(-1)
  {
    assert Wrap32(1 + Int32Max) == Int32Min;
  }

  /** `IndexOf(item)`: the whole list, default comparer. */
  method IndexOf<T(==)>(source: seq<T>, item: T) returns (r: Result<int>)
    requires |source| <= Int32Max
    ensures r.Success?
    ensures r.value == -1 <==> item !in source
    ensures r.value != -1 ==> 0 <= r.value < |source| && source[r.value] == item && item !in source[..r.value]
  {
    r := IndexOfRange(source, item, 0, |source|, (x, y) => x == y);
    ScanWithinList(source, item, 0, |source|, (x, y) => x == y);
  }

  /** `IndexOf(item, comparer)`: the whole list. */
  method IndexOfWith<T>(source: seq<T>, item: T, eq: (T, T) -> bool) returns (r: Result<int>)
    requires |source| <= Int32Max
    ensures r.Success?
    ensures r.value == -1 <==> forall j :: 0 <= j < |source| ==> !eq(source[j], item)
    ensures r.value != -1 ==> 0 <= r.value < |source| && eq(source[r.value], item)
    ensures r.value != -1 ==> forall j :: 0 <= j < r.value ==> !eq(source[j], item)
  {
    r := IndexOfRange(source, item, 0, |source|, eq);
    ScanWithinList(source, item, 0, |source|, eq);
  }

  /** `IndexOf(item, startIndex, count)`: default comparer. */
  method IndexOfIn<T(==)>(source: seq<T>, item: T, startIndex: int, count: int) returns (r: Result<int>)
    requires Int32Min <= startIndex <= Int32Max && Int32Min <= count <= Int32Max
    ensures r == Scan(source, item, startIndex, Wrap32(startIndex + count), (x, y) => x == y)
  {
    r := IndexOfRange(source, item, startIndex, count, (x, y) => x == y);
  }
}
