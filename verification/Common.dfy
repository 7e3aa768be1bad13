/** Data types and sequence laws that several modules share. */
module Common {

  datatype Option<+T> = None | Some(value: T)

  datatype Result<+T, +E> = Ok(value: T) | Err(error: E)

  type uint8 = x: int | 0 <= x < 0x100
  type uint16 = x: int | 0 <= x < 0x1_0000
  type uint32 = x: int | 0 <= x < 0x1_0000_0000

  function Min(x: int, y: int): int {
    if x <= y then x else y
  }

  function Max(x: int, y: int): int {
    if x <= y then y else x
  }

  /** SQL's OFFSET and LIMIT on a sequence; a negative limit means none. */
  function Cut<T>(xs: seq<T>, offset: nat, limit: int): seq<T> {
    var rest := xs[Min(offset, |xs|)..];
    if limit < 0 then rest else rest[..Min(limit, |rest|)]
  }

  function Flatten<T>(xss: seq<seq<T>>): seq<T> {
    if xss == [] then [] else xss[0] + Flatten(xss[1..])
  }

  lemma {:induction false} FlattenConcat<T>(xss: seq<seq<T>>, yss: seq<seq<T>>)
    ensures Flatten(xss + yss) == Flatten(xss) + Flatten(yss)
  {
    if xss == [] {
      assert xss + yss == yss;
    } else {
      assert (xss + yss)[0] == xss[0] && (xss + yss)[1..] == xss[1..] + yss;
      FlattenConcat(xss[1..], yss);
    }
  }

  lemma FlattenCons<T>(xs: seq<T>, xss: seq<seq<T>>)
    ensures Flatten([xs] + xss) == xs + Flatten(xss)
  {
    assert ([xs] + xss)[1..] == xss;
  }

  lemma FlattenSnoc<T>(xss: seq<seq<T>>, ys: seq<T>)
    ensures Flatten(xss + [ys]) == Flatten(xss) + ys
  {
    FlattenConcat(xss, [ys]);
    assert Flatten([ys]) == ys;
  }

  function Sum(ns: seq<nat>): nat {
    if ns == [] then 0 else ns[0] + Sum(ns[1..])
  }

  lemma {:induction false} SumConcat(xs: seq<nat>, ys: seq<nat>)
    ensures Sum(xs + ys) == Sum(xs) + Sum(ys)
  {
    if xs == [] {
      assert xs + ys == ys;
    } else {
      assert (xs + ys)[0] == xs[0] && (xs + ys)[1..] == xs[1..] + ys;
      SumConcat(xs[1..], ys);
    }
  }

  /** How often x occurs in xs. */
  function Copies<T(==)>(xs: seq<T>, x: T): nat {
    if xs == [] then 0 else (if xs[0] == x then 1 else 0) + Copies(xs[1..], x)
  }

  lemma {:induction false} CopiesConcat<T>(xs: seq<T>, ys: seq<T>, x: T)
    ensures Copies(xs + ys, x) == Copies(xs, x) + Copies(ys, x)
  {
    if xs == [] {
      assert xs + ys == ys;
    } else {
      assert (xs + ys)[0] == xs[0] && (xs + ys)[1..] == xs[1..] + ys;
      CopiesConcat(xs[1..], ys, x);
    }
  }

  lemma {:induction false} CopiesIsMultiplicity<T>(xs: seq<T>, x: T)
    ensures Copies(xs, x) == multiset(xs)[x]
    ensures Copies(xs, x) == 0 <==> x !in xs
  {
    if xs != [] {
      assert xs == [xs[0]] + xs[1..];
      CopiesIsMultiplicity(xs[1..], x);
    }
  }

  /** The first of an errgroup's errors, once a goroutine reports its result. */
  function Earliest<E>(first: Option<E>, result: Option<E>): Option<E> {
    if first.Some? then first else result
  }

  /** The elements of xs that satisfy p, in order. */
  function Filter<T(!new)>(p: T -> bool, xs: seq<T>): (r: seq<T>)
    ensures forall x :: x in r <==> x in xs && p(x)
  {
    if xs == [] then [] else (if p(xs[0]) then [xs[0]] else []) + Filter(p, xs[1..])
  }

  lemma {:induction false} FilterConcat<T(!new)>(p: T -> bool, xs: seq<T>, ys: seq<T>)
    ensures Filter(p, xs + ys) == Filter(p, xs) + Filter(p, ys)
  {
    if xs == [] {
      assert xs + ys == ys;
    } else {
      assert (xs + ys)[0] == xs[0] && (xs + ys)[1..] == xs[1..] + ys;
      FilterConcat(p, xs[1..], ys);
    }
  }

  lemma {:induction false} FilterCount<T(!new)>(p: T -> bool, xs: seq<T>, x: T)
    ensures multiset(Filter(p, xs))[x] == if p(x) then multiset(xs)[x] else 0
  {
    if xs != [] {
      assert xs == [xs[0]] + xs[1..];
      FilterCount(p, xs[1..], x);
    }
  }

  lemma {:induction false} FilterIsAll<T(!new)>(p: T -> bool, xs: seq<T>)
    requires forall x :: x in xs ==> p(x)
    ensures Filter(p, xs) == xs
  {
    if xs != [] {
      FilterIsAll(p, xs[1..]);
    }
  }

  lemma {:induction false} FilterAgrees<T(!new)>(p: T -> bool, q: T -> bool, xs: seq<T>)
    requires forall x :: x in xs ==> (p(x) <==> q(x))
    ensures Filter(p, xs) == Filter(q, xs)
  {
    if xs != [] {
      FilterAgrees(p, q, xs[1..]);
    }
  }

  lemma {:induction false} FilterNone<T(!new)>(p: T -> bool, xs: seq<T>)
    requires forall x :: x in xs ==> !p(x)
    ensures Filter(p, xs) == []
  {
    if xs != [] {
      FilterNone(p, xs[1..]);
    }
  }

  lemma {:induction false} FilterTwice<T(!new)>(p: T -> bool, q: T -> bool, both: T -> bool, xs: seq<T>)
    requires forall x :: both(x) <==> p(x) && q(x)
    ensures Filter(q, Filter(p, xs)) == Filter(both, xs)
  {
    if xs != [] {
      FilterTwice(p, q, both, xs[1..]);
      FilterConcat(q, if p(xs[0]) then [xs[0]] else [], Filter(p, xs[1..]));
    }
  }

  /** What passes p and what does not is everything. */
  lemma FilterSplits<T(!new)>(p: T -> bool, q: T -> bool, xs: seq<T>)
    requires forall x :: q(x) <==> !p(x)
    ensures multiset(Filter(p, xs)) + multiset(Filter(q, xs)) == multiset(xs)
  {
    forall x: T
      ensures (multiset(Filter(p, xs)) + multiset(Filter(q, xs)))[x] == multiset(xs)[x]
    {
      FilterCount(p, xs, x);
      FilterCount(q, xs, x);
    }
  }

  function Map<T, U>(f: T -> U, xs: seq<T>): (r: seq<U>)
    ensures |r| == |xs| && forall i :: 0 <= i < |xs| ==> r[i] == f(xs[i])
  {
    if xs == [] then [] else [f(xs[0])] + Map(f, xs[1..])
  }

  /** The row count of a table against the one wanted. */
  method CheckCount<E>(found: nat, wanted: nat, wrong: E) returns (r: Result<nat, E>)
    ensures r == if found == wanted then Ok(wanted) else Err(wrong)
  {
    if found != wanted {
      return Err(wrong);
    }
    return Ok(wanted);
  }

  // ----- Sorting -----

  ghost predicate Ordered<T>(key: T -> int, xs: seq<T>) {
    forall i, j :: 0 <= i < j < |xs| ==> key(xs[i]) <= key(xs[j])
  }

  /** Sorts by insertion. The theorems use only that the result is ordered and
      holds the same elements, as any sort leaves it. */
  method SortBy<T>(key: T -> int, xs: seq<T>) returns (sorted: seq<T>)
    ensures multiset(sorted) == multiset(xs)
    ensures Ordered(key, sorted)
  {
    sorted := [];
    var i := 0;
    while i < |xs|
      invariant 0 <= i <= |xs|
      invariant multiset(sorted) == multiset(xs[..i])
      invariant Ordered(key, sorted)
    {
      PrefixAdds(xs, i);
      sorted := InsertInOrder(key, sorted, xs[i]);
      i := i + 1;
    }
    assert xs[..i] == xs;
  }

  method InsertInOrder<T>(key: T -> int, sorted: seq<T>, x: T) returns (r: seq<T>)
    requires Ordered(key, sorted)
    ensures Ordered(key, r) && multiset(r) == multiset(sorted) + multiset{x}
  {
    var j := 0;
    while j < |sorted| && key(sorted[j]) <= key(x)
      invariant 0 <= j <= |sorted|
      invariant j > 0 ==> key(sorted[j - 1]) <= key(x)
    {
      j := j + 1;
    }
    InsertKeepsOrder(key, sorted, j, x);
    InsertAdds(sorted, j, x);
    r := Insert(sorted, j, x);
  }

  function Insert<T>(xs: seq<T>, j: nat, x: T): (r: seq<T>)
    requires j <= |xs|
    ensures |r| == |xs| + 1
    ensures forall k :: 0 <= k < |r| ==> r[k] == if k < j then xs[k] else if k == j then x else xs[k - 1]
  {
    xs[..j] + [x] + xs[j..]
  }

  lemma InsertAdds<T>(xs: seq<T>, j: nat, x: T)
    requires j <= |xs|
    ensures multiset(Insert(xs, j, x)) == multiset(xs) + multiset{x}
  {
    assert xs == xs[..j] + xs[j..];
  }

  /** A place where x keeps the order. */
  lemma {:induction false} PlaceFor<T>(key: T -> int, sorted: seq<T>, x: T) returns (j: nat)
    requires Ordered(key, sorted)
    ensures j <= |sorted| && Ordered(key, Insert(sorted, j, x))
  {
    j := 0;
    while j < |sorted| && key(sorted[j]) <= key(x)
      invariant 0 <= j <= |sorted|
      invariant j > 0 ==> key(sorted[j - 1]) <= key(x)
    {
      j := j + 1;
    }
    InsertKeepsOrder(key, sorted, j, x);
  }

  /** Inserting an element that p drops changes nothing for p. */
  lemma {:induction false} FilterInsert<T(!new)>(p: T -> bool, xs: seq<T>, j: nat, x: T)
    requires j <= |xs| && !p(x)
    ensures Filter(p, Insert(xs, j, x)) == Filter(p, xs)
  {
    if j == 0 {
      assert Insert(xs, 0, x)[1..] == xs && [] + Filter(p, xs) == Filter(p, xs);
    } else {
      assert Insert(xs, j, x)[0] == xs[0] && Insert(xs, j, x)[1..] == Insert(xs[1..], j - 1, x);
      FilterInsert(p, xs[1..], j - 1, x);
    }
  }

  /** Puts what p dropped back, each element where it keeps the order. */
  lemma {:induction false} PutBack<T(!new)>(key: T -> int, p: T -> bool, kept: seq<T>, dropped: seq<T>)
    returns (all: seq<T>)
    requires Ordered(key, kept) && Filter(p, kept) == kept && forall x :: x in dropped ==> !p(x)
    ensures Ordered(key, all) && Filter(p, all) == kept
    ensures multiset(all) == multiset(kept) + multiset(dropped)
  {
    if dropped == [] {
      all := kept;
    } else {
      var x := dropped[0];
      var rest := PutBack(key, p, kept, dropped[1..]);
      var j := PlaceFor(key, rest, x);
      all := Insert(rest, j, x);
      FilterInsert(p, rest, j, x);
      InsertAdds(rest, j, x);
      MultisetCons(dropped);
    }
  }

  lemma SameMembers<T>(xs: seq<T>, ys: seq<T>)
    requires multiset(xs) == multiset(ys)
    ensures forall x :: x in xs <==> x in ys
  {
    assert forall x :: x in xs <==> x in multiset(xs);
    assert forall x :: x in ys <==> x in multiset(ys);
  }

  lemma MultisetCons<T>(xs: seq<T>)
    requires xs != []
    ensures multiset(xs) == multiset{xs[0]} + multiset(xs[1..])
    ensures multiset(xs[1..]) == multiset(xs) - multiset{xs[0]}
  {
    assert xs == [xs[0]] + xs[1..];
  }

  lemma PrefixAdds<T>(xs: seq<T>, i: nat)
    requires i < |xs|
    ensures multiset(xs[..i + 1]) == multiset(xs[..i]) + multiset{xs[i]}
  {
    assert xs[..i + 1] == xs[..i] + [xs[i]];
  }

  lemma InsertKeepsOrder<T>(key: T -> int, sorted: seq<T>, j: nat, x: T)
    requires Ordered(key, sorted) && j <= |sorted|
    requires j > 0 ==> key(sorted[j - 1]) <= key(x)
    requires j < |sorted| ==> key(x) <= key(sorted[j])
    ensures Ordered(key, Insert(sorted, j, x))
  {
    var r := Insert(sorted, j, x);
    forall a, b | 0 <= a < b < |r|
      ensures key(r[a]) <= key(r[b])
    {
      if a == j {
        assert key(sorted[j]) <= key(sorted[b - 1]) || b - 1 == j;
      } else if b == j {
        assert key(sorted[a]) <= key(sorted[j - 1]) || a == j - 1;
      }
    }
  }

  lemma SwapKeepsOrdered<T>(key: T -> int, xs: seq<T>, i: nat, j: nat)
    requires Ordered(key, xs) && i < |xs| && j < |xs| && key(xs[i]) == key(xs[j])
    ensures var ys := xs[i := xs[j]][j := xs[i]];
      multiset(ys) == multiset(xs) && Ordered(key, ys)
  {
    var ys := xs[i := xs[j]][j := xs[i]];
    assert forall k :: 0 <= k < |xs| ==> key(ys[k]) == key(xs[k]);
    forall a, b | 0 <= a < b < |ys|
      ensures key(ys[a]) <= key(ys[b])
    {
      assert key(xs[a]) <= key(xs[b]);
    }
  }
}
