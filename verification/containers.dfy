/** The two standard-library containers the core leans on:
    `std::experimental::erase_if` on a vector, and the ordered
    `std::set<std::optional<uint32_t>>` that the queue-family scan returns. */
module Containers {
  import opened Results
  import opened VkUtils

  // ---------------------------------------------------------------------
  // erase_if

  /** What `erase_if(v, remove)` leaves of `s`: the elements for which
      `remove` is false, in their original order. */
  function Erased<T>(s: seq<T>, remove: T -> bool): (r: seq<T>)
    ensures |r| <= |s|
  {
    if s == [] then []
    else (if remove(s[0]) then [] else [s[0]]) + Erased(s[1..], remove)
  }

  /** `Erased` distributes over concatenation, so it can be built up one
      element at a time from the front. */
  lemma {:induction false} ErasedAppend<T>(s: seq<T>, t: seq<T>, remove: T -> bool)
    ensures Erased(s + t, remove) == Erased(s, remove) + Erased(t, remove)
  {
    if s == [] {
      assert s + t == t;
    } else {
      assert (s + t)[1..] == s[1..] + t;
      ErasedAppend(s[1..], t, remove);
    }
  }

  /** An element survives exactly when it was there and is not removed. */
  lemma {:induction false} ErasedMembers<T>(s: seq<T>, remove: T -> bool, x: T)
    ensures x in Erased(s, remove) <==> x in s && !remove(x)
  {
    if s != [] {
      ErasedMembers(s[1..], remove, x);
      assert s == [s[0]] + s[1..];
    }
  }

  /** When some element survives, the first survivor is the first element
      of `s` that is not removed. */
  lemma {:induction false} ErasedHead<T>(s: seq<T>, remove: T -> bool, k: nat)
    requires k < |s| && !remove(s[k])
    requires forall j :: 0 <= j < k ==> remove(s[j])
    ensures |Erased(s, remove)| > 0 && Erased(s, remove)[0] == s[k]
  {
    if k > 0 {
      ErasedHead(s[1..], remove, k - 1);
    }
  }

  /** `std::experimental::erase_if` on a vector held in `a`: the kept
      elements are moved to the front, in order, and the new size is
      returned. */
  method EraseIf<T>(a: array<T>, remove: T -> bool) returns (len: nat)
    modifies a
    ensures len <= a.Length
    ensures a[..len] == Erased(old(a[..]), remove)
  {
    ghost var s := a[..];
    len := 0;
    var i := 0;
    while i < a.Length
      invariant len <= i <= a.Length
      invariant a[..len] == Erased(s[..i], remove)
      invariant forall k :: i <= k < a.Length ==> a[k] == s[k]
    {
      var x := a[i];
      ghost var kept := a[..len];
      assert s[..i + 1] == s[..i] + [x];
      ErasedAppend(s[..i], [x], remove);
      if !remove(x) {
        a[len] := x;
        assert a[..len + 1] == kept + [x];
        len := len + 1;
      }
      i := i + 1;
    }
    assert s[..i] == s;
  }

  // ---------------------------------------------------------------------
  // std::set<std::optional<uint32_t>>

  /** `std::optional`'s `<`: `nullopt` is below every engaged value. */
  predicate OptLess(a: Option<u32>, b: Option<u32>)
  {
    match (a, b)
    case (None, Some(_)) => true
    case (Some(x), Some(y)) => x < y
    case _ => false
  }

  /** A `std::set` is held as its iteration order: strictly ascending. */
  predicate Ascending(s: seq<Option<u32>>)
  {
    forall i, j :: 0 <= i < j < |s| ==> OptLess(s[i], s[j])
  }

  /** `set.insert(x)`: add `x` if absent, keeping the order. */
  function Insert(s: seq<Option<u32>>, x: Option<u32>): (r: seq<Option<u32>>)
    requires Ascending(s)
    ensures Ascending(r)
    ensures forall y :: y in r <==> y in s || y == x
    ensures x in s ==> r == s
    ensures x !in s ==> |r| == |s| + 1
  {
    if s == [] then [x]
    else if x == s[0] then s
    else if OptLess(x, s[0]) then [x] + s
    else
      var rest := Insert(s[1..], x);
      assert OptLess(s[0], x);
      assert forall y :: y in rest ==> OptLess(s[0], y);
      [s[0]] + rest
  }
}
