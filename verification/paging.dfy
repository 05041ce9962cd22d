/** `paged_vector` of the TIL contract: one page of a stored vector, newest
    (highest index) first. Pages are numbered from 1; page 0 is mapped to raw
    page 1 and so returns what page 2 returns. */
module Paging {
  import opened Wrappers
  import opened Panics

  const MaxPageSize: nat := 100

  /** Number of newest items that come before the requested page. */
  function Skipped(page: nat, pageSize: nat): nat {
    var rawPage := if page == 0 then 1 else page - 1;
    rawPage * pageSize
  }

  function Min(a: nat, b: nat): nat {
    if a <= b then a else b
  }

  /** How many items a page holds when the vector has `len` items. */
  function PageLen(len: nat, page: nat, pageSize: nat): nat {
    var skipped := Skipped(page, pageSize);
    if skipped >= len then 0 else Min(pageSize, len - skipped)
  }

  /** `s` read from its last element to its first. */
  function Reverse<T>(s: seq<T>): (r: seq<T>)
    ensures |r| == |s|
    ensures forall i :: 0 <= i < |s| ==> r[i] == s[|s| - 1 - i]
  {
    if |s| == 0 then [] else [s[|s| - 1]] + Reverse(s[..|s| - 1])
  }

  /** `Vector::get`: the element at `i`, or nothing when `i` is out of range. */
  function Get<T>(s: seq<T>, i: int): (r: Option<T>)
    ensures r.Some? <==> 0 <= i < |s|
    ensures r.Some? ==> r.value == s[i]
  {
    if 0 <= i < |s| then Some(s[i]) else None
  }

  /** The page `paged_vector` returns, as a window of `items`: the `PageLen`
      items just below the `Skipped` newest ones, read newest first. */
  function Page<T>(items: seq<T>, page: nat, pageSize: nat): (r: Result<seq<T>, Panic>)
    ensures r.Failure? <==> pageSize > MaxPageSize
    ensures r.Failure? ==> r.error == PageSizeTooLarge
    ensures r.Success? ==> |r.value| == PageLen(|items|, page, pageSize)
    ensures r.Success? ==> forall i :: 0 <= i < |r.value| ==>
              r.value[i] == items[|items| - Skipped(page, pageSize) - 1 - i]
  {
    if pageSize > MaxPageSize then Failure(PageSizeTooLarge)
    else
      var skipped := Skipped(page, pageSize);
      if skipped >= |items| then Success([])
      else
        var hi := |items| - skipped;
        Success(Reverse(items[hi - Min(pageSize, hi)..hi]))
  }

  /** `paged_vector` as the contract runs it: the limit check, the skip
      computation, and the countdown loop from `start_idx` with its early
      exit and its `get` that is never out of range. */
  method PagedVector<T>(items: seq<T>, page: nat, pageSize: nat) returns (r: Result<seq<T>, Panic>)
    ensures r == Page(items, page, pageSize)
  {
    if pageSize > MaxPageSize {
      return Failure(PageSizeTooLarge);
    }
    var rawPage := if page == 0 then 1 else page - 1;
    var skipped := rawPage * pageSize;
    assert skipped == Skipped(page, pageSize);
    if skipped >= |items| {
      assert Page(items, page, pageSize).value == [];
      return Success([]);
    }
    var startIdx := |items| - skipped - 1;
    var result: seq<T> := [];
    var i: nat := 0;
    while i < pageSize
      invariant i <= pageSize && i <= startIdx + 1
      invariant |result| == i
      invariant forall k :: 0 <= k < i ==> result[k] == items[startIdx - k]
    {
      if startIdx < i {
        break;
      }
      var item := Get(items, startIdx - i);
      if item.Some? {
        result := result + [item.value];
      }
      i := i + 1;
    }
    assert i == Min(pageSize, |items| - skipped);
    var expected := Page(items, page, pageSize).value;
    assert |result| == |expected|;
    assert forall k :: 0 <= k < |result| ==> result[k] == expected[k];
    assert result == expected;
    r := Success(result);
  }

  /** Page 0 repeats page 2. */
  lemma PageZeroIsPageTwo<T>(items: seq<T>, pageSize: nat)
    ensures Page(items, 0, pageSize) == Page(items, 2, pageSize)
  {
  }

  /** Pages of a fixed positive size cover the whole vector: the item `j`
      places below the newest one is at position `j % pageSize` of page
      `j / pageSize + 1`. */
  lemma {:induction false} EveryItemOnSomePage<T>(items: seq<T>, pageSize: nat, j: nat)
    requires 1 <= pageSize <= MaxPageSize
    requires j < |items|
    ensures var r := Page(items, j / pageSize + 1, pageSize);
            && r.Success?
            && j % pageSize < |r.value|
            && r.value[j % pageSize] == items[|items| - 1 - j]
  {
    var q, m := j / pageSize, j % pageSize;
    assert j == q * pageSize + m;
    assert Skipped(q + 1, pageSize) == q * pageSize;
  }

  /** Two items at different positions of the vector never land at the same
      position of the same page: a page lists distinct items when the vector does. */
  lemma PageKeepsDistinct<T>(items: seq<T>, page: nat, pageSize: nat)
    requires forall i, j :: 0 <= i < j < |items| ==> items[i] != items[j]
    ensures var r := Page(items, page, pageSize);
            r.Success? ==> forall i, j :: 0 <= i < j < |r.value| ==> r.value[i] != r.value[j]
  {
    var r := Page(items, page, pageSize);
    if r.Success? {
      var top := |items| - Skipped(page, pageSize) - 1;
      forall i, j | 0 <= i < j < |r.value|
        ensures r.value[i] != r.value[j]
      {
        assert r.value[i] == items[top - j + (j - i)];
        assert r.value[j] == items[top - j];
      }
    }
  }
}
