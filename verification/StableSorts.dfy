/** `List.sort`: the stable sort of a list by a comparator, and why it is the only one. */
module StableSorts {
  /** What a comparator must be: of two elements at most one comes first, and the order is transitive. */
  ghost predicate IsComparator<T(!new)>(compare: (T, T) -> int) {
    (forall a, b :: compare(a, b) < 0 <==> compare(b, a) > 0)
    && (forall a, b, c :: compare(a, b) <= 0 && compare(b, c) <= 0 ==> compare(a, c) <= 0)
  }

  ghost predicate Ordered<T>(xs: seq<T>, compare: (T, T) -> int) {
    forall i, j :: 0 <= i < j < |xs| ==> compare(xs[i], xs[j]) <= 0
  }

  /** The elements a comparator does not tell from `x`, in their order. */
  function Alike<T>(xs: seq<T>, x: T, compare: (T, T) -> int): seq<T> {
    if xs == [] then [] else (if compare(x, xs[0]) == 0 then [xs[0]] else []) + Alike(xs[1..], x, compare)
  }

  function Insert<T>(x: T, xs: seq<T>, compare: (T, T) -> int): seq<T> {
    if xs == [] || compare(x, xs[0]) <= 0 then [x] + xs else [xs[0]] + Insert(x, xs[1..], compare)
  }

  function StableSort<T>(xs: seq<T>, compare: (T, T) -> int): seq<T> {
    if xs == [] then [] else Insert(xs[0], StableSort(xs[1..], compare), compare)
  }

  /** `ys` is what a stable sort makes of `xs`: ordered, and the same elements in the same order among equals. */
  ghost predicate IsStableSort<T(!new)>(xs: seq<T>, ys: seq<T>, compare: (T, T) -> int) {
    Ordered(ys, compare) && forall x :: Alike(ys, x, compare) == Alike(xs, x, compare)
  }

  lemma {:induction false} InsertKeepsMembers<T>(x: T, xs: seq<T>, compare: (T, T) -> int)
    ensures multiset(Insert(x, xs, compare)) == multiset{x} + multiset(xs)
  {
    if xs != [] && compare(x, xs[0]) > 0 {
      InsertKeepsMembers(x, xs[1..], compare);
      assert xs == [xs[0]] + xs[1..];
    }
  }

  lemma OrderedCons<T(!new)>(x: T, xs: seq<T>, compare: (T, T) -> int)
    requires Ordered(xs, compare) && forall y :: y in xs ==> compare(x, y) <= 0
    ensures Ordered([x] + xs, compare)
  {
    var all := [x] + xs;
    forall i, j | 0 <= i < j < |all| ensures compare(all[i], all[j]) <= 0 {
      assert all[j] == xs[j - 1];
      if i > 0 {
        assert all[i] == xs[i - 1];
      }
    }
  }

  lemma OrderedTail<T(!new)>(xs: seq<T>, compare: (T, T) -> int)
    requires xs != [] && Ordered(xs, compare)
    ensures Ordered(xs[1..], compare) && forall y :: y in xs[1..] ==> compare(xs[0], y) <= 0
  {
    forall y | y in xs[1..] ensures compare(xs[0], y) <= 0 {
      var i :| 0 <= i < |xs[1..]| && xs[1..][i] == y;
      assert xs[i + 1] == y;
    }
  }

  lemma {:induction false} InsertKeepsOrder<T(!new)>(x: T, xs: seq<T>, compare: (T, T) -> int)
    requires IsComparator(compare) && Ordered(xs, compare)
    ensures Ordered(Insert(x, xs, compare), compare)
  {
    if xs == [] {
    } else {
      OrderedTail(xs, compare);
      hide Ordered;
      if compare(x, xs[0]) <= 0 {
        assert forall y :: y in xs ==> y == xs[0] || y in xs[1..];
        OrderedCons(x, xs, compare);
      } else {
        var rest := Insert(x, xs[1..], compare);
        InsertKeepsOrder(x, xs[1..], compare);
        InsertKeepsMembers(x, xs[1..], compare);
        forall y | y in rest ensures compare(xs[0], y) <= 0 {
          assert y in multiset(rest);
          assert y == x || y in xs[1..];
        }
        OrderedCons(xs[0], rest, compare);
      }
    }
  }

  lemma {:induction false} InsertGoesFirstAmongAlike<T(!new)>(x: T, xs: seq<T>, z: T, compare: (T, T) -> int)
    requires IsComparator(compare)
    ensures Alike(Insert(x, xs, compare), z, compare) == Alike([x] + xs, z, compare)
  {
    assert ([x] + xs)[1..] == xs;
    if xs != [] && compare(x, xs[0]) > 0 {
      var rest := Insert(x, xs[1..], compare);
      InsertGoesFirstAmongAlike(x, xs[1..], z, compare);
      assert ([xs[0]] + rest)[1..] == rest;
      assert ([x] + xs[1..])[1..] == xs[1..];
      assert !(compare(z, x) == 0 && compare(z, xs[0]) == 0);
    }
  }

  lemma {:induction false} SortIsStable<T(!new)>(xs: seq<T>, compare: (T, T) -> int)
    requires IsComparator(compare)
    ensures IsStableSort(xs, StableSort(xs, compare), compare)
  {
    if xs != [] {
      hide IsComparator;
      var rest := StableSort(xs[1..], compare);
      SortIsStable(xs[1..], compare);
      InsertKeepsOrder(xs[0], rest, compare);
      forall x ensures Alike(StableSort(xs, compare), x, compare) == Alike(xs, x, compare) {
        InsertGoesFirstAmongAlike(xs[0], rest, x, compare);
        assert ([xs[0]] + rest)[1..] == rest;
      }
    }
  }

  lemma {:induction false} AlikeMembers<T(!new)>(xs: seq<T>, x: T, compare: (T, T) -> int)
    requires IsComparator(compare)
    ensures x in xs <==> x in Alike(xs, x, compare)
  {
    if xs != [] {
      AlikeMembers(xs[1..], x, compare);
      assert x in xs <==> x == xs[0] || x in xs[1..];
    }
  }

  /** Exactly one list is a stable sort of a given one, so the comparator and the list settle what `sort` leaves. */
  lemma {:induction false} StableSortIsUnique<T(!new)>(ys: seq<T>, zs: seq<T>, compare: (T, T) -> int)
    requires IsComparator(compare) && Ordered(ys, compare) && Ordered(zs, compare)
    requires forall x :: Alike(ys, x, compare) == Alike(zs, x, compare)
    ensures ys == zs
    decreases |ys|
  {
    if ys == [] {
      if zs != [] {
        AlikeMembers(zs, zs[0], compare);
      }
    } else {
      AlikeMembers(ys, ys[0], compare);
      AlikeMembers(zs, ys[0], compare);
      AlikeMembers(ys, zs[0], compare);
      AlikeMembers(zs, zs[0], compare);
      HeadsAreAlike(ys, zs, compare);
      assert Alike(ys, ys[0], compare)[0] == ys[0] && Alike(zs, ys[0], compare)[0] == zs[0];
      OrderedTail(ys, compare);
      OrderedTail(zs, compare);
      forall x ensures Alike(ys[1..], x, compare) == Alike(zs[1..], x, compare) {
        AlikeTail(ys, x, compare);
        AlikeTail(zs, x, compare);
        assert Alike(ys, x, compare) == Alike(zs, x, compare);
      }
      StableSortIsUnique(ys[1..], zs[1..], compare);
    }
  }

  lemma HeadsAreAlike<T(!new)>(ys: seq<T>, zs: seq<T>, compare: (T, T) -> int)
    requires IsComparator(compare) && Ordered(ys, compare) && Ordered(zs, compare)
    requires ys != [] && zs != [] && ys[0] in zs && zs[0] in ys
    ensures compare(ys[0], zs[0]) == 0 && compare(ys[0], ys[0]) == 0
  {
    var i :| 0 <= i < |zs| && zs[i] == ys[0];
    var j :| 0 <= j < |ys| && ys[j] == zs[0];
    assert compare(zs[0], zs[i]) <= 0 && compare(ys[0], ys[j]) <= 0;
  }

  lemma AlikeTail<T>(xs: seq<T>, x: T, compare: (T, T) -> int)
    requires xs != []
    ensures Alike(xs[1..], x, compare)
      == if compare(x, xs[0]) == 0 then Alike(xs, x, compare)[1..] else Alike(xs, x, compare)
  {
  }

  /** A comparator that finds all elements equal leaves the list as it is. */
  lemma {:induction false} ConstantComparatorKeeps<T(!new)>(xs: seq<T>, compare: (T, T) -> int)
    requires forall a, b :: compare(a, b) == 0
    ensures StableSort(xs, compare) == xs
  {
    if xs != [] {
      ConstantComparatorKeeps(xs[1..], compare);
    }
  }

  lemma {:induction false} SortKeepsMembers<T>(xs: seq<T>, compare: (T, T) -> int)
    ensures multiset(StableSort(xs, compare)) == multiset(xs)
  {
    if xs != [] {
      SortKeepsMembers(xs[1..], compare);
      InsertKeepsMembers(xs[0], StableSort(xs[1..], compare), compare);
      assert xs == [xs[0]] + xs[1..];
    }
  }
}
