/**
  Items laid end to end, each taking up some places, and a rewrite that gives
  every item the number of its places that lie before a cut.
 */
module Positions {

  /** Places taken up by the items before `i`. */
  function Before<T>(size: T -> nat, xs: seq<T>, i: nat): nat
    requires i <= |xs|
  {
    if i == 0 then 0 else Before(size, xs, i - 1) + size(xs[i-1])
  }

  /** Every item rewritten. */
  function Rewritten<T>(f: (T, int) -> T, size: T -> nat, xs: seq<T>, cut: int): (r: seq<T>)
    ensures |r| == |xs|
  {
    seq(|xs|, i requires 0 <= i < |xs| => f(xs[i], cut - Before(size, xs, i)))
  }

  lemma {:induction false} SameBefore<T>(size: T -> nat, a: seq<T>, b: seq<T>, i: nat)
    requires i <= |a| && i <= |b| && forall k :: 0 <= k < i ==> size(a[k]) == size(b[k])
    ensures Before(size, a, i) == Before(size, b, i)
  {
    if i == 0 {
    } else {
      SameBefore(size, a, b, i - 1);
    }
  }

  /** The rewrite of these items changes no item's size. */
  predicate KeepsSizes<T>(f: (T, int) -> T, size: T -> nat, xs: seq<T>, cut: int) {
    var once := Rewritten(f, size, xs, cut);
    forall k :: 0 <= k < |xs| ==> size(once[k]) == size(xs[k])
  }

  /** Two sequences whose first items have the same sizes put item `i` at the same place. */
  lemma SamePosition<T>(size: T -> nat, a: seq<T>, b: seq<T>, more: seq<T>, i: nat)
    requires |a| == |b| && i <= |a| + |more| && forall k :: 0 <= k < |a| ==> size(a[k]) == size(b[k])
    ensures Before(size, a + more, i) == Before(size, b + more, i)
  {
    SameBefore(size, a + more, b + more, i);
  }

  /** Rewriting an item again with more of it before the cut is rewriting it once. */
  predicate Settles<T(==)>(f: (T, int) -> T, x: T, cut: int, later: int) {
    f(f(x, cut), later) == f(x, later)
  }

  lemma At<T>(f: (T, int) -> T, size: T -> nat, xs: seq<T>, cut: int, i: nat, p: int)
    requires i < |xs| && Before(size, xs, i) == p
    ensures Rewritten(f, size, xs, cut)[i] == f(xs[i], cut - p)
  {
  }

  lemma BothAt<T>(f: (T, int) -> T, size: T -> nat, once: seq<T>, all: seq<T>, later: int, i: nat, p: int)
    requires i < |once| && i < |all| && Before(size, once, i) == p && Before(size, all, i) == p
    ensures Rewritten(f, size, once, later)[i] == f(once[i], later - p)
    ensures Rewritten(f, size, all, later)[i] == f(all[i], later - p)
  {
    At(f, size, once, later, i, p);
    At(f, size, all, later, i, p);
  }

  lemma TwiceAt<T>(f: (T, int) -> T, size: T -> nat, once: seq<T>, all: seq<T>, x: T, cut: int, later: int, i: nat, p: int)
    requires i < |once| && i < |all| && Before(size, once, i) == p && Before(size, all, i) == p
    requires all[i] == x && once[i] == f(x, cut - p)
    ensures Rewritten(f, size, once, later)[i] == Rewritten(f, size, all, later)[i]
            <==> Settles(f, x, cut - p, later - p)
  {
    BothAt(f, size, once, all, later, i, p);
  }

  lemma LaterAt<T>(f: (T, int) -> T, size: T -> nat, once: seq<T>, all: seq<T>, later: int, i: nat)
    requires i < |once| && i < |all| && once[i] == all[i] && Before(size, once, i) == Before(size, all, i)
    ensures Rewritten(f, size, once, later)[i] == Rewritten(f, size, all, later)[i]
  {
    BothAt(f, size, once, all, later, i, Before(size, all, i));
  }

  lemma PrefixPosition<T>(size: T -> nat, xs: seq<T>, more: seq<T>, i: nat)
    requires i <= |xs|
    ensures Before(size, xs + more, i) == Before(size, xs, i)
  {
    SameBefore(size, xs + more, xs, i);
  }

  lemma FirstSide<T>(f: (T, int) -> T, size: T -> nat, xs: seq<T>, more: seq<T>, cut: int, later: int, i: nat, p: int)
    requires i < |xs| && p == Before(size, xs, i)
    requires Before(size, Rewritten(f, size, xs, cut) + more, i) == Before(size, xs + more, i)
    ensures Rewritten(f, size, Rewritten(f, size, xs, cut) + more, later)[i] == Rewritten(f, size, xs + more, later)[i]
            <==> Settles(f, xs[i], cut - p, later - p)
  {
    PrefixPosition(size, xs, more, i);
    At(f, size, xs, cut, i, p);
    TwiceAt(f, size, Rewritten(f, size, xs, cut) + more, xs + more, xs[i], cut, later, i, p);
  }

  predicate SettlesAt<T(==)>(f: (T, int) -> T, size: T -> nat, xs: seq<T>, cut: int, later: int, i: nat)
    requires i < |xs|
  {
    Settles(f, xs[i], cut - Before(size, xs, i), later - Before(size, xs, i))
  }

  lemma SettlesThere<T>(f: (T, int) -> T, size: T -> nat, xs: seq<T>, cut: int, later: int, i: nat, p: int)
    requires i < |xs| && p == Before(size, xs, i)
    ensures Settles(f, xs[i], cut - p, later - p) <==> SettlesAt(f, size, xs, cut, later, i)
  {
  }

  lemma SideAt<T>(f: (T, int) -> T, size: T -> nat, xs: seq<T>, more: seq<T>, cut: int, later: int, i: nat, p: int)
    requires i < |xs| && p == Before(size, xs, i)
    requires Before(size, Rewritten(f, size, xs, cut) + more, i) == Before(size, xs + more, i)
    ensures Rewritten(f, size, Rewritten(f, size, xs, cut) + more, later)[i] == Rewritten(f, size, xs + more, later)[i]
            <==> SettlesAt(f, size, xs, cut, later, i)
  {
    FirstSide(f, size, xs, more, cut, later, i, p);
    SettlesThere(f, size, xs, cut, later, i, p);
  }

  lemma PositionKept<T>(f: (T, int) -> T, size: T -> nat, xs: seq<T>, more: seq<T>, cut: int, i: nat)
    requires KeepsSizes(f, size, xs, cut) && i <= |xs| + |more|
    ensures Before(size, Rewritten(f, size, xs, cut) + more, i) == Before(size, xs + more, i)
  {
    SamePosition(size, Rewritten(f, size, xs, cut), xs, more, i);
  }

  lemma ItemExactly<T>(f: (T, int) -> T, size: T -> nat, xs: seq<T>, more: seq<T>, cut: int, later: int, i: nat)
    requires KeepsSizes(f, size, xs, cut) && i < |xs| + |more|
    ensures Rewritten(f, size, Rewritten(f, size, xs, cut) + more, later)[i] == Rewritten(f, size, xs + more, later)[i]
            <==> (i < |xs| ==> SettlesAt(f, size, xs, cut, later, i))
  {
    PositionKept(f, size, xs, more, cut, i);
    if i < |xs| {
      SideAt(f, size, xs, more, cut, later, i, Before(size, xs, i));
    } else {
      LaterAt(f, size, Rewritten(f, size, xs, cut) + more, xs + more, later, i);
    }
  }

  /** Rewriting, appending and rewriting again is rewriting once, exactly when that holds item by item. */
  lemma TwiceExactly<T>(f: (T, int) -> T, size: T -> nat, xs: seq<T>, more: seq<T>, cut: int, later: int)
    requires KeepsSizes(f, size, xs, cut)
    ensures Rewritten(f, size, Rewritten(f, size, xs, cut) + more, later) == Rewritten(f, size, xs + more, later)
            <==> forall i :: 0 <= i < |xs| ==> SettlesAt(f, size, xs, cut, later, i)
  {
    var l := Rewritten(f, size, Rewritten(f, size, xs, cut) + more, later);
    var r := Rewritten(f, size, xs + more, later);
    forall i | 0 <= i < |r| ensures l[i] == r[i] <==> (i < |xs| ==> SettlesAt(f, size, xs, cut, later, i)) {
      ItemExactly(f, size, xs, more, cut, later, i);
    }
  }
}
