/**
 * The list operations `parseEvents` finishes with: `diff`, which drops
 * the events equal to an excluded one, `eventIsDuplicated`, which finds
 * the first equal event, and the sort by start time. Event equality is
 * `Event.Equals`, defined outside this model, so it is a parameter `eq`;
 * the sort key is a parameter `key`.
 */
module Post {

  /** Some element of `b` is equal to `x` under `eq`. */
  predicate Matched<T>(x: T, b: seq<T>, eq: (T, T) -> bool) {
    exists k :: 0 <= k < |b| && eq(x, b[k])
  }

  /** The elements of `a` equal to no element of `b`, in the order of `a`. */
  function Keep<T>(a: seq<T>, b: seq<T>, eq: (T, T) -> bool): (r: seq<T>)
    ensures |r| <= |a|
  {
    if a == [] then []
    else
      var rest := Keep(a[..|a| - 1], b, eq);
      if Matched(a[|a| - 1], b, eq) then rest else rest + [a[|a| - 1]]
  }

  /** `diff`: for each event of `a`, the inner loop over `b` stops at the first equal one. */
  method Diff<T>(a: seq<T>, b: seq<T>, eq: (T, T) -> bool) returns (r: seq<T>)
    ensures r == Keep(a, b, eq)
  {
    r := [];
    for i := 0 to |a|
      invariant r == Keep(a[..i], b, eq)
    {
      var matched := false;
      var j := 0;
      while j < |b| && !matched
        invariant 0 <= j <= |b|
        invariant matched <==> exists k :: 0 <= k < j && eq(a[i], b[k])
      {
        matched := eq(a[i], b[j]);
        j := j + 1;
      }
      assert a[..i + 1][..i] == a[..i];
      if !matched {
        r := r + [a[i]];
      }
    }
    assert a[..|a|] == a;
  }

  /** A value is kept exactly when it is in `a` and equal to nothing in `b`. */
  lemma {:induction false} KeepMembers<T>(a: seq<T>, b: seq<T>, eq: (T, T) -> bool, x: T)
    ensures x in Keep(a, b, eq) <==> x in a && !Matched(x, b, eq)
  {
    if a != [] {
      var init := a[..|a| - 1];
      KeepMembers(init, b, eq, x);
      assert a == init + [a[|a| - 1]];
    }
  }

  /** Filtering a concatenation filters each part: the order of `a` is kept. */
  lemma {:induction false} KeepAppend<T>(a1: seq<T>, a2: seq<T>, b: seq<T>, eq: (T, T) -> bool)
    ensures Keep(a1 + a2, b, eq) == Keep(a1, b, eq) + Keep(a2, b, eq)
    decreases |a2|
  {
    if a2 == [] {
      assert a1 + a2 == a1;
    } else {
      var init := a2[..|a2| - 1];
      KeepAppend(a1, init, b, eq);
      assert (a1 + a2)[..|a1 + a2| - 1] == a1 + init;
    }
  }

  /** One value is kept alone exactly when nothing in `b` equals it. */
  lemma KeepOne<T>(x: T, b: seq<T>, eq: (T, T) -> bool)
    ensures Keep([x], b, eq) == if Matched(x, b, eq) then [] else [x]
  {
    assert [x][..0] == [];
  }

  /** With nothing to subtract, `diff` gives its first argument back. */
  lemma {:induction false} KeepNothing<T>(a: seq<T>, eq: (T, T) -> bool)
    ensures Keep(a, [], eq) == a
  {
    if a != [] {
      KeepNothing(a[..|a| - 1], eq);
    }
  }

  /** `eventIsDuplicated`: the index of the first event equal to `event`, with `found`; `0, false` when none is. */
  method FindDuplicate<T>(events: seq<T>, event: T, eq: (T, T) -> bool) returns (index: int, found: bool)
    ensures found <==> exists j :: 0 <= j < |events| && eq(event, events[j])
    ensures found ==> 0 <= index < |events| && eq(event, events[index])
    ensures found ==> forall j :: 0 <= j < index ==> !eq(event, events[j])
    ensures !found ==> index == 0
  {
    for i := 0 to |events|
      invariant forall j :: 0 <= j < i ==> !eq(event, events[j])
    {
      if eq(event, events[i]) {
        return i, true;
      }
    }
    return 0, false;
  }

  // ---- the sort by start time

  /** Non-decreasing under `key`. */
  predicate SortedBy<T>(xs: seq<T>, key: T -> int) {
    forall i, j :: 0 <= i < j < |xs| ==> key(xs[i]) <= key(xs[j])
  }

  /** `x` placed before the first element with a larger-or-equal key. */
  function Insert<T>(x: T, xs: seq<T>, key: T -> int): (r: seq<T>)
    ensures |r| == |xs| + 1
  {
    if xs == [] || key(x) <= key(xs[0]) then [x] + xs
    else [xs[0]] + Insert(x, xs[1..], key)
  }

  /**
   * `sort.Sort(byDate(...))`: the events ordered by start. Go's sort is not
   * stable, so only the order of keys and the multiset of elements are
   * claimed, not the order of ties.
   */
  function SortBy<T>(xs: seq<T>, key: T -> int): (r: seq<T>)
    ensures |r| == |xs|
  {
    if xs == [] then [] else Insert(xs[0], SortBy(xs[1..], key), key)
  }

  lemma {:induction false} InsertSorted<T>(x: T, xs: seq<T>, key: T -> int)
    requires SortedBy(xs, key)
    ensures SortedBy(Insert(x, xs, key), key)
    ensures forall y :: y in Insert(x, xs, key) ==> y == x || y in xs
  {
    if xs != [] && key(x) > key(xs[0]) {
      InsertSorted(x, xs[1..], key);
      var r := Insert(x, xs[1..], key);
      forall y | y in r ensures key(xs[0]) <= key(y) {
        if y != x {
          var k :| 0 <= k < |xs[1..]| && xs[1..][k] == y;
          assert xs[k + 1] == y;
        }
      }
      forall i, j | 0 <= i < j < |[xs[0]] + r| ensures key(([xs[0]] + r)[i]) <= key(([xs[0]] + r)[j]) {
        if i > 0 {
          assert ([xs[0]] + r)[i] == r[i - 1];
        }
        assert ([xs[0]] + r)[j] == r[j - 1] && r[j - 1] in r;
      }
    }
  }

  lemma {:induction false} InsertPermutes<T>(x: T, xs: seq<T>, key: T -> int)
    ensures multiset(Insert(x, xs, key)) == multiset(xs) + multiset{x}
  {
    if xs != [] && key(x) > key(xs[0]) {
      InsertPermutes(x, xs[1..], key);
      assert xs == [xs[0]] + xs[1..];
    }
  }

  /** The sort orders by key. */
  lemma {:induction false} SortBySorted<T>(xs: seq<T>, key: T -> int)
    ensures SortedBy(SortBy(xs, key), key)
  {
    if xs != [] {
      SortBySorted(xs[1..], key);
      InsertSorted(xs[0], SortBy(xs[1..], key), key);
    }
  }

  /** The sort keeps every element, as often as it occurs. */
  lemma {:induction false} SortByPermutes<T>(xs: seq<T>, key: T -> int)
    ensures multiset(SortBy(xs, key)) == multiset(xs)
  {
    if xs != [] {
      SortByPermutes(xs[1..], key);
      InsertPermutes(xs[0], SortBy(xs[1..], key), key);
      assert xs == [xs[0]] + xs[1..];
    }
  }

  /** Dropping elements keeps a sorted list sorted. */
  lemma {:induction false} KeepSorted<T>(a: seq<T>, b: seq<T>, eq: (T, T) -> bool, key: T -> int)
    requires SortedBy(a, key)
    ensures SortedBy(Keep(a, b, eq), key)
    ensures forall k :: 0 <= k < |Keep(a, b, eq)| ==> exists i :: 0 <= i < |a| && Keep(a, b, eq)[k] == a[i]
  {
    if a != [] {
      var init := a[..|a| - 1];
      var last := a[|a| - 1];
      KeepSorted(init, b, eq, key);
      var rest := Keep(init, b, eq);
      forall k | 0 <= k < |rest| ensures key(rest[k]) <= key(last) {
        var i :| 0 <= i < |init| && rest[k] == init[i];
        assert init[i] == a[i];
      }
      forall k | 0 <= k < |Keep(a, b, eq)| ensures exists i :: 0 <= i < |a| && Keep(a, b, eq)[k] == a[i] {
        if k < |rest| {
          var i :| 0 <= i < |init| && rest[k] == init[i];
          assert Keep(a, b, eq)[k] == a[i];
        } else {
          assert Keep(a, b, eq)[k] == a[|a| - 1];
        }
      }
    }
  }
}
