/** Listings of a mailbox: what the values filed under a list of ids are, and how order and ids matter. */
module MailboxListings {
  import opened MailboxStore

  /** The values of those of `ids` that have one, in order. */
  function Gather<T>(f: map<Id, T>, ids: seq<Id>): seq<T> {
    if ids == [] then []
    else (if ids[0] in f then [f[ids[0]]] else []) + Gather(f, ids[1..])
  }

  predicate NoRepeats(ids: seq<Id>) {
    forall i, j :: 0 <= i < j < |ids| ==> ids[i] != ids[j]
  }

  /** `ids` lists a set of ids, each of them once. */
  ghost predicate Enumerates(ids: seq<Id>, filed: set<Id>) {
    NoRepeats(ids) && forall x :: x in ids <==> x in filed
  }

  lemma {:induction false} GatherAppend<T>(f: map<Id, T>, xs: seq<Id>, ys: seq<Id>)
    ensures Gather(f, xs + ys) == Gather(f, xs) + Gather(f, ys)
    decreases |xs|
  {
    if xs == [] {
      assert xs + ys == ys;
    } else {
      assert (xs + ys)[1..] == xs[1..] + ys;
      GatherAppend(f, xs[1..], ys);
    }
  }

  lemma {:induction false} GatherAgrees<T>(f: map<Id, T>, g: map<Id, T>, ids: seq<Id>)
    requires forall x :: x in ids ==> (x in f <==> x in g) && (x in f ==> f[x] == g[x])
    ensures Gather(f, ids) == Gather(g, ids)
    decreases |ids|
  {
    if ids != [] {
      GatherAgrees(f, g, ids[1..]);
    }
  }

  lemma RemoveFrom(ys: seq<Id>, i: nat) returns (rest: seq<Id>)
    requires i < |ys| && NoRepeats(ys)
    ensures rest == ys[..i] + ys[i + 1..] && ys == ys[..i] + [ys[i]] + ys[i + 1..]
    ensures NoRepeats(rest) && forall y :: y in rest <==> y in ys && y != ys[i]
  {
    rest := ys[..i] + ys[i + 1..];
    forall y | y in ys && y != ys[i] ensures y in rest {
      var j :| 0 <= j < |ys| && ys[j] == y;
      assert rest[if j < i then j else j - 1] == y;
    }
  }

  lemma GatherWithout<T>(f: map<Id, T>, ys: seq<Id>, i: nat)
    requires i < |ys|
    ensures multiset(Gather(f, ys)) ==
      multiset(if ys[i] in f then [f[ys[i]]] else []) + multiset(Gather(f, ys[..i] + ys[i + 1..]))
  {
    var one := [ys[i]];
    assert ys == ys[..i] + (one + ys[i + 1..]);
    GatherAppend(f, ys[..i], one + ys[i + 1..]);
    GatherAppend(f, one, ys[i + 1..]);
    GatherAppend(f, ys[..i], ys[i + 1..]);
    assert Gather(f, one) == (if ys[i] in f then [f[ys[i]]] else []) by {
      assert one[1..] == [];
    }
  }

  lemma {:induction false} GatherNothing<T>(f: map<Id, T>, ids: seq<Id>)
    requires forall x :: x in ids ==> x !in f
    ensures Gather(f, ids) == []
    decreases |ids|
  {
    if ids != [] {
      GatherNothing(f, ids[1..]);
    }
  }

  /** Two lists that name the same ids with a value, each once, gather the same values, up to order. */
  lemma {:induction false} GatherIgnoresOrder<T>(f: map<Id, T>, xs: seq<Id>, ys: seq<Id>)
    requires NoRepeats(xs) && NoRepeats(ys) && forall x :: x in f ==> (x in xs <==> x in ys)
    ensures multiset(Gather(f, xs)) == multiset(Gather(f, ys))
    decreases |xs|
  {
    if xs == [] {
      GatherNothing(f, ys);
    } else {
      TailOf(xs);
      if xs[0] in f {
        assert xs[0] in ys;
        var i :| 0 <= i < |ys| && ys[i] == xs[0];
        var rest := RemoveFrom(ys, i);
        GatherIgnoresOrder(f, xs[1..], rest);
        GatherWithout(f, ys, i);
        GatherWithout(f, xs, 0);
        assert xs[..0] + xs[1..] == xs[1..];
      } else {
        GatherIgnoresOrder(f, xs[1..], ys);
      }
    }
  }

  lemma TailOf(xs: seq<Id>)
    requires xs != [] && NoRepeats(xs)
    ensures NoRepeats(xs[1..]) && forall x :: x in xs[1..] <==> x in xs && x != xs[0]
  {
    forall x | x in xs && x != xs[0] ensures x in xs[1..] {
      var j :| 0 <= j < |xs| && xs[j] == x;
      assert xs[1..][j - 1] == x;
    }
  }

  lemma {:induction false} GatherIsNoLonger<T, U>(f: map<Id, T>, g: map<Id, U>, ids: seq<Id>)
    requires forall x :: x in ids && x in f ==> x in g
    ensures |Gather(f, ids)| <= |Gather(g, ids)|
    decreases |ids|
  {
    if ids != [] {
      GatherIsNoLonger(f, g, ids[1..]);
    }
  }

  /** A value missing on one side only makes the gathered lists differ in length. */
  lemma {:induction false} GatherIsShorter<T, U>(f: map<Id, T>, g: map<Id, U>, ids: seq<Id>, y: Id)
    requires forall x :: x in ids && x in f ==> x in g
    requires y in ids && y in g && y !in f
    ensures |Gather(f, ids)| < |Gather(g, ids)|
    decreases |ids|
  {
    if ids[0] == y {
      GatherIsNoLonger(f, g, ids[1..]);
    } else {
      assert y in ids[1..];
      GatherIsShorter(f, g, ids[1..], y);
    }
  }
}
