/**
 * Concatenating what each item of a sequence contributes, item after item: the shape of the
 * loops that extend one result list per input item.
 */
module Sequences {
  /** What `items` contribute through `f`, in order. */
  function Concat<T, U>(f: T -> seq<U>, items: seq<T>): seq<U>
    decreases |items|
  {
    if items == [] then [] else Concat(f, items[..|items| - 1]) + f(items[|items| - 1])
  }

  /** The contribution of a sequence split anywhere is that of the two parts. */
  lemma {:induction false} ConcatAppend<T, U>(f: T -> seq<U>, a: seq<T>, b: seq<T>)
    ensures Concat(f, a + b) == Concat(f, a) + Concat(f, b)
    decreases |b|
  {
    if b == [] {
      assert a + b == a;
    } else {
      assert (a + b)[..|a + b| - 1] == a + b[..|b| - 1];
      var last := b[|b| - 1];
      assert (a + b)[|a + b| - 1] == last;
      ConcatAppend(f, a, b[..|b| - 1]);
      calc {
        Concat(f, a + b);
        Concat(f, a + b[..|b| - 1]) + f(last);
        Concat(f, a) + Concat(f, b[..|b| - 1]) + f(last);
      }
    }
  }

  /** One more item adds its contribution at the end. */
  lemma ConcatPrefix<T, U>(f: T -> seq<U>, items: seq<T>, i: nat)
    requires i < |items|
    ensures Concat(f, items[..i + 1]) == Concat(f, items[..i]) + f(items[i])
  {
    assert items[..i + 1][..i] == items[..i];
  }

  /** A value is in the concatenation iff some item contributes it. */
  lemma {:induction false} ConcatMembership<T, U>(f: T -> seq<U>, items: seq<T>, x: U)
    ensures x in Concat(f, items) <==> exists i :: 0 <= i < |items| && x in f(items[i])
    decreases |items|
  {
    if items != [] {
      var init := items[..|items| - 1];
      ConcatMembership(f, init, x);
      if exists i :: 0 <= i < |items| && x in f(items[i]) {
        var i :| 0 <= i < |items| && x in f(items[i]);
        if i < |init| {
          assert init[i] == items[i];
        }
      }
      if exists i :: 0 <= i < |init| && x in f(init[i]) {
        var i :| 0 <= i < |init| && x in f(init[i]);
        assert items[i] == init[i];
      }
    }
  }

  /** `f` applied to every item, in order. */
  function Map<T, U>(f: T -> U, items: seq<T>): (r: seq<U>)
    ensures |r| == |items|
    ensures forall k :: 0 <= k < |items| ==> r[k] == f(items[k])
    decreases |items|
  {
    if items == [] then [] else Map(f, items[..|items| - 1]) + [f(items[|items| - 1])]
  }

  /** One more item adds its image at the end. */
  lemma MapPrefix<T, U>(f: T -> U, items: seq<T>, i: nat)
    requires i < |items|
    ensures Map(f, items[..i + 1]) == Map(f, items[..i]) + [f(items[i])]
  {
    assert items[..i + 1][..i] == items[..i];
  }

  /** The images under `f` of the items `keep` accepts, in order. */
  function Filtered<T, U>(keep: T -> bool, f: T -> U, items: seq<T>): seq<U>
    decreases |items|
  {
    if items == [] then []
    else
      var last := items[|items| - 1];
      Filtered(keep, f, items[..|items| - 1]) + (if keep(last) then [f(last)] else [])
  }

  /** One more item adds its image when it is kept. */
  lemma FilteredPrefix<T, U>(keep: T -> bool, f: T -> U, items: seq<T>, i: nat)
    requires i < |items|
    ensures Filtered(keep, f, items[..i + 1])
      == Filtered(keep, f, items[..i]) + (if keep(items[i]) then [f(items[i])] else [])
  {
    assert items[..i + 1][..i] == items[..i];
  }

  /** A value is in the result iff it is the image of a kept item. */
  lemma {:induction false} FilteredMembership<T, U>(keep: T -> bool, f: T -> U, items: seq<T>, x: U)
    ensures x in Filtered(keep, f, items) <==> exists k :: 0 <= k < |items| && keep(items[k]) && f(items[k]) == x
    decreases |items|
  {
    if items != [] {
      var init := items[..|items| - 1];
      FilteredMembership(keep, f, init, x);
      if exists k :: 0 <= k < |items| && keep(items[k]) && f(items[k]) == x {
        var k :| 0 <= k < |items| && keep(items[k]) && f(items[k]) == x;
        if k < |init| {
          assert init[k] == items[k];
        }
      }
      if exists k :: 0 <= k < |init| && keep(init[k]) && f(init[k]) == x {
        var k :| 0 <= k < |init| && keep(init[k]) && f(init[k]) == x;
        assert items[k] == init[k];
      }
    }
  }

  /** At most one image per item, and exactly one each when every item is kept. */
  lemma {:induction false} FilteredCount<T, U>(keep: T -> bool, f: T -> U, items: seq<T>)
    ensures |Filtered(keep, f, items)| <= |items|
    ensures (forall k :: 0 <= k < |items| ==> keep(items[k])) ==> |Filtered(keep, f, items)| == |items|
    decreases |items|
  {
    if items != [] {
      FilteredCount(keep, f, items[..|items| - 1]);
    }
  }

  /** The result of a concatenation is the concatenation of the results. */
  lemma {:induction false} FilteredAppend<T, U>(keep: T -> bool, f: T -> U, a: seq<T>, b: seq<T>)
    ensures Filtered(keep, f, a + b) == Filtered(keep, f, a) + Filtered(keep, f, b)
    decreases |b|
  {
    if b == [] {
      assert a + b == a;
    } else {
      var init := b[..|b| - 1];
      assert (a + b)[..|a + b| - 1] == a + init;
      assert (a + b)[|a + b| - 1] == b[|b| - 1];
      FilteredAppend(keep, f, a, init);
    }
  }
}
