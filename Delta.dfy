/**
 * deltaDomains: drops from the feed's domain list the domains that are
 * already blocked. The source removes elements from the list while a `for`
 * loop iterates over that same list; Python's list iterator walks an index,
 * so the element that moves into the freed slot is never looked at. This
 * module models that behaviour exactly and relates it to the plain
 * difference the function is meant to compute.
 */
module Delta {

  /** A Python list of strings that is updated in place and shared by reference. */
  class DomainList {
    var items: seq<string>

    constructor (items: seq<string>)
      ensures this.items == items
    {
      this.items := items;
    }
  }

  /** Position of the first occurrence of x. */
  function IndexOf(xs: seq<string>, x: string): (k: nat)
    requires x in xs
    ensures k < |xs| && xs[k] == x && x !in xs[..k]
  {
    if xs[0] == x then 0
    else
      var k := IndexOf(xs[1..], x) + 1;
      assert xs[..k] == [xs[0]] + xs[1..][..k - 1];
      k
  }

  /** `list.remove(x)`: drops the first occurrence of x. */
  function RemoveFirst(xs: seq<string>, x: string): seq<string>
    requires x in xs
  {
    var k := IndexOf(xs, x);
    xs[..k] + xs[k + 1..]
  }

  /**
   * The list after the loop, when the iterator's next index is i: the
   * element at i is read, the index moves on, and the element is removed
   * (its first occurrence) if it is already blocked.
   */
  function DeltaFrom(xs: seq<string>, i: nat, blocked: seq<string>): seq<string>
    decreases |xs| - i
  {
    if i >= |xs| then xs
    else if xs[i] in blocked then DeltaFrom(RemoveFirst(xs, xs[i]), i + 1, blocked)
    else DeltaFrom(xs, i + 1, blocked)
  }

  /** The list deltaDomains leaves behind. */
  function Delta(xs: seq<string>, blocked: seq<string>): seq<string> {
    DeltaFrom(xs, 0, blocked)
  }

  /** deltaDomains: updates newDn in place and returns that same list. */
  method DeltaDomains(newDn: DomainList, oldDn: seq<string>) returns (r: DomainList)
    modifies newDn
    ensures r == newDn
    ensures newDn.items == Delta(old(newDn.items), oldDn)
  {
    var i := 0;
    while i < |newDn.items|
      invariant DeltaFrom(newDn.items, i, oldDn) == Delta(old(newDn.items), oldDn)
      decreases |newDn.items| - i
    {
      var dn := newDn.items[i];
      i := i + 1;
      if dn in oldDn {
        newDn.items := RemoveFirst(newDn.items, dn);
      }
    }
    r := newDn;
  }

  /** The elements of xs that are not blocked, in order: what deltaDomains is meant to return. */
  function Difference(xs: seq<string>, blocked: seq<string>): seq<string> {
    if xs == [] then []
    else (if xs[0] in blocked then [] else [xs[0]]) + Difference(xs[1..], blocked)
  }

  lemma {:induction false} DifferenceAppend(a: seq<string>, b: seq<string>, blocked: seq<string>)
    ensures Difference(a + b, blocked) == Difference(a, blocked) + Difference(b, blocked)
  {
    if a == [] {
      assert a + b == b;
    } else {
      assert (a + b)[1..] == a[1..] + b;
      DifferenceAppend(a[1..], b, blocked);
    }
  }

  /** Removing a blocked element leaves the unblocked ones, and their order, as they were. */
  lemma RemoveFirstKeepsUnblocked(xs: seq<string>, x: string, blocked: seq<string>)
    requires x in xs && x in blocked
    ensures Difference(RemoveFirst(xs, x), blocked) == Difference(xs, blocked)
  {
    var k := IndexOf(xs, x);
    var before, after := xs[..k], xs[k + 1..];
    assert xs == before + [x] + after;
    DifferenceAppend(before + [x], after, blocked);
    DifferenceAppend(before, [x], blocked);
    assert Difference([x], blocked) == [];
    assert Difference(before + [x], blocked) == Difference(before, blocked);
    DifferenceAppend(before, after, blocked);
  }

  /** Removing an element takes exactly one copy of it away. */
  lemma RemoveFirstMultiset(xs: seq<string>, x: string)
    requires x in xs
    ensures multiset(RemoveFirst(xs, x)) == multiset(xs) - multiset{x}
  {
    var k := IndexOf(xs, x);
    assert xs == xs[..k] + [x] + xs[k + 1..];
  }

  /** The loop from index i on keeps every unblocked element, in order. */
  lemma {:induction false} DeltaFromKeepsUnblocked(xs: seq<string>, i: nat, blocked: seq<string>)
    ensures Difference(DeltaFrom(xs, i, blocked), blocked) == Difference(xs, blocked)
    decreases |xs| - i
  {
    if i < |xs| {
      if xs[i] in blocked {
        RemoveFirstKeepsUnblocked(xs, xs[i], blocked);
        DeltaFromKeepsUnblocked(RemoveFirst(xs, xs[i]), i + 1, blocked);
      } else {
        DeltaFromKeepsUnblocked(xs, i + 1, blocked);
      }
    }
  }

  /** The loop from index i on removes only blocked elements, one copy at a time. */
  lemma {:induction false} DeltaFromRemovesOnlyBlocked(xs: seq<string>, i: nat, blocked: seq<string>)
    ensures multiset(DeltaFrom(xs, i, blocked)) <= multiset(xs)
    ensures forall y :: y !in blocked ==> multiset(DeltaFrom(xs, i, blocked))[y] == multiset(xs)[y]
    decreases |xs| - i
  {
    if i < |xs| {
      if xs[i] in blocked {
        RemoveFirstMultiset(xs, xs[i]);
        DeltaFromRemovesOnlyBlocked(RemoveFirst(xs, xs[i]), i + 1, blocked);
      } else {
        DeltaFromRemovesOnlyBlocked(xs, i + 1, blocked);
      }
    }
  }

  /**
   * deltaDomains only removes domains that are already blocked, keeps every
   * domain that is not, in its original relative order, and never makes the
   * list longer.
   */
  lemma DeltaKeepsUnblocked(xs: seq<string>, blocked: seq<string>)
    ensures Difference(Delta(xs, blocked), blocked) == Difference(xs, blocked)
    ensures multiset(Delta(xs, blocked)) <= multiset(xs)
    ensures forall y :: y !in blocked ==> multiset(Delta(xs, blocked))[y] == multiset(xs)[y]
    ensures |Delta(xs, blocked)| <= |xs|
  {
    DeltaFromKeepsUnblocked(xs, 0, blocked);
    DeltaFromRemovesOnlyBlocked(xs, 0, blocked);
    var r := Delta(xs, blocked);
    assert |multiset(r)| <= |multiset(xs)| by {
      assert multiset(xs) == multiset(r) + (multiset(xs) - multiset(r));
    }
  }

  /** With nothing blocked the list comes back unchanged. */
  lemma {:induction false} NothingBlockedNothingRemoved(xs: seq<string>, i: nat)
    ensures DeltaFrom(xs, i, []) == xs
    decreases |xs| - i
  {
    if i < |xs| {
      NothingBlockedNothingRemoved(xs, i + 1);
    }
  }

  /** No string occurs twice. */
  predicate Distinct(xs: seq<string>) {
    forall i, j :: 0 <= i < j < |xs| ==> xs[i] != xs[j]
  }

  /**
   * What deltaDomains does to a list without repetitions: a blocked
   * element is removed, and the element right after it is kept without
   * being looked at.
   */
  function SkipAfterRemoval(xs: seq<string>, blocked: seq<string>): seq<string> {
    if xs == [] then []
    else if xs[0] !in blocked then [xs[0]] + SkipAfterRemoval(xs[1..], blocked)
    else if |xs| == 1 then []
    else [xs[1]] + SkipAfterRemoval(xs[2..], blocked)
  }

  lemma {:induction false} DistinctDeltaFrom(xs: seq<string>, i: nat, blocked: seq<string>)
    requires Distinct(xs) && i <= |xs|
    ensures DeltaFrom(xs, i, blocked) == xs[..i] + SkipAfterRemoval(xs[i..], blocked)
    decreases |xs| - i, 1
  {
    if i == |xs| {
      assert xs[i..] == [];
    } else if xs[i] in blocked {
      DistinctDeltaFromBlocked(xs, i, blocked);
    } else {
      DistinctDeltaFrom(xs, i + 1, blocked);
      assert xs[..i + 1] == xs[..i] + [xs[i]];
      assert xs[i..][1..] == xs[i + 1..];
    }
  }

  /** In a list without repetitions the first occurrence of xs[i] is at i. */
  lemma DistinctRemoveAt(xs: seq<string>, i: nat)
    requires Distinct(xs) && i < |xs|
    ensures RemoveFirst(xs, xs[i]) == xs[..i] + xs[i + 1..]
    ensures Distinct(xs[..i] + xs[i + 1..])
  {
  }

  /** DistinctDeltaFrom when the element at i is blocked. */
  lemma {:induction false} DistinctDeltaFromBlocked(xs: seq<string>, i: nat, blocked: seq<string>)
    requires Distinct(xs) && i < |xs| && xs[i] in blocked
    ensures DeltaFrom(xs, i, blocked) == xs[..i] + SkipAfterRemoval(xs[i..], blocked)
    decreases |xs| - i, 0
  {
    DistinctRemoveAt(xs, i);
    var ys := xs[..i] + xs[i + 1..];
    assert DeltaFrom(xs, i, blocked) == DeltaFrom(ys, i + 1, blocked);
    if i + 1 < |xs| {
      DistinctDeltaFrom(ys, i + 1, blocked);
      assert ys[..i + 1] == xs[..i] + [xs[i + 1]];
      assert ys[i + 1..] == xs[i + 2..];
      assert xs[i..][2..] == xs[i + 2..];
    } else {
      assert ys == xs[..i];
      assert xs[i..] == [xs[i]];
    }
  }

  /** On a list without repetitions, deltaDomains behaves as SkipAfterRemoval. */
  lemma DistinctDelta(xs: seq<string>, blocked: seq<string>)
    requires Distinct(xs)
    ensures Delta(xs, blocked) == SkipAfterRemoval(xs, blocked)
  {
    DistinctDeltaFrom(xs, 0, blocked);
    assert xs[0..] == xs;
  }

  /** Two blocked domains in a row: the second one is never examined and survives. */
  lemma SecondOfTwoBlockedSurvives()
    ensures Delta(["ads.example.com", "tracker.test.org"], ["ads.example.com", "tracker.test.org"]) == ["tracker.test.org"]
    ensures Difference(["ads.example.com", "tracker.test.org"], ["ads.example.com", "tracker.test.org"]) == []
  {
    var xs := ["ads.example.com", "tracker.test.org"];
    DistinctDelta(xs, xs);
    assert xs[2..] == [];
  }

  /** The difference holds exactly the unblocked elements, each as often as in xs, in their order. */
  lemma {:induction false} DifferenceExact(xs: seq<string>, blocked: seq<string>)
    ensures forall x :: x in Difference(xs, blocked) <==> x in xs && x !in blocked
    ensures forall x :: x !in blocked ==> multiset(Difference(xs, blocked))[x] == multiset(xs)[x]
  {
    if xs != [] {
      DifferenceExact(xs[1..], blocked);
      assert xs == [xs[0]] + xs[1..];
    }
  }
}
