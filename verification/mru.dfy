/**
 * The recently-used list of note titles: filtering a title out of the list
 * and the update that moves the current title to the front, keeping at
 * most eight entries.
 */
module Mru {
  /** The list without the entries equal to `x`, the others in order. */
  function Without(xs: seq<string>, x: string): (r: seq<string>)
    ensures x !in r
    ensures forall y :: y != x ==> (y in r <==> y in xs)
    ensures |r| <= |xs|
  {
    if xs == [] then [] else (if xs[0] == x then [] else [xs[0]]) + Without(xs[1..], x)
  }

  /** Filtering distributes over concatenation, so the survivors keep their relative order. */
  lemma {:induction false} WithoutAppend(xs: seq<string>, ys: seq<string>, x: string)
    ensures Without(xs + ys, x) == Without(xs, x) + Without(ys, x)
    decreases |xs|
  {
    if xs != [] {
      assert (xs + ys)[1..] == xs[1..] + ys;
      WithoutAppend(xs[1..], ys, x);
    } else {
      assert xs + ys == ys;
    }
  }

  /** Exactly the entries equal to `x` are removed: every other entry keeps its count. */
  lemma {:induction false} WithoutCount(xs: seq<string>, x: string, y: string)
    ensures multiset(Without(xs, x))[y] == if y == x then 0 else multiset(xs)[y]
    decreases |xs|
  {
    if xs != [] {
      WithoutCount(xs[1..], x, y);
      assert xs == [xs[0]] + xs[1..];
    }
  }

  /** Filtering a list that lacks `x` changes nothing. */
  lemma {:induction false} WithoutAbsent(xs: seq<string>, x: string)
    requires x !in xs
    ensures Without(xs, x) == xs
    decreases |xs|
  {
    if xs != [] {
      WithoutAbsent(xs[1..], x);
      assert xs == [xs[0]] + xs[1..];
    }
  }

  /** The longest list kept before the current title is put in front. */
  const Capacity: nat := 8

  /**
   * Both titles are filtered out, the last entry is dropped when eight or
   * more remain, and the current title goes in front.
   */
  function Update(recent: seq<string>, oldTitle: string, current: string): (r: seq<string>)
    ensures |r| >= 1 && r[0] == current
    ensures forall i :: 1 <= i < |r| ==> r[i] != current && r[i] != oldTitle
    ensures |r| <= if |recent| > Capacity then |recent| else Capacity
    ensures |r| - 1 <= |Without(Without(recent, current), oldTitle)|
    ensures r[1..] == Without(Without(recent, current), oldTitle)[..|r| - 1]
    ensures |Without(Without(recent, current), oldTitle)| < Capacity ==>
              r[1..] == Without(Without(recent, current), oldTitle)
  {
    var filtered := Without(Without(recent, current), oldTitle);
    var kept := if |filtered| >= Capacity then filtered[..|filtered| - 1] else filtered;
    assert forall i :: 0 <= i < |kept| ==> kept[i] in filtered;
    [current] + kept
  }

  /** Once the list is full, each update drops the oldest surviving entry. */
  lemma UpdateFull(recent: seq<string>, oldTitle: string, current: string)
    requires |Without(Without(recent, current), oldTitle)| >= Capacity
    ensures |Update(recent, oldTitle, current)| == |Without(Without(recent, current), oldTitle)|
  {
  }

  /** Updating twice with the same titles gives the same list. */
  lemma UpdateIdempotent(recent: seq<string>, oldTitle: string, current: string)
    requires |recent| <= Capacity
    ensures Update(Update(recent, oldTitle, current), oldTitle, current) == Update(recent, oldTitle, current)
  {
    var r := Update(recent, oldTitle, current);
    var tail := r[1..];
    assert current !in tail && oldTitle !in tail;
    assert Without(r, current) == tail by {
      assert r == [current] + tail;
      WithoutAbsent(tail, current);
    }
    WithoutAbsent(tail, oldTitle);
    assert |tail| < Capacity;
  }
}
