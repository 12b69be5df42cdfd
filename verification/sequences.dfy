/**
  Sequence utilities of the bookmark serialiser: keeping the images of the
  elements that pass a test, and removing repeated elements while keeping
  the first occurrence of each, in the order those first occurrences appear.
 */
module Sequences {

  /** `[f(x) for x in xs if keep(f(x))]`. */
  function FilterMap<A, B>(xs: seq<A>, f: A -> B, keep: B -> bool): (r: seq<B>)
    ensures forall k :: 0 <= k < |r| ==> keep(r[k])
    ensures |r| <= |xs|
    decreases |xs|
  {
    if |xs| == 0 then []
    else
      var y := f(xs[|xs| - 1]);
      FilterMap(xs[..|xs| - 1], f, keep) + (if keep(y) then [y] else [])
  }

  /** Extending the input by one element extends the result by that element's image if it passes. */
  lemma FilterMapAppend<A, B>(xs: seq<A>, x: A, f: A -> B, keep: B -> bool)
    ensures FilterMap(xs + [x], f, keep) == FilterMap(xs, f, keep) + (if keep(f(x)) then [f(x)] else [])
  {
    assert (xs + [x])[..|xs|] == xs;
  }

  /** An element is kept exactly when it is the image of some input and passes the test. */
  lemma {:induction false} FilterMapMembers<A, B>(xs: seq<A>, f: A -> B, keep: B -> bool, y: B)
    ensures y in FilterMap(xs, f, keep) <==> keep(y) && exists i :: 0 <= i < |xs| && f(xs[i]) == y
    decreases |xs|
  {
    if |xs| > 0 {
      var init := xs[..|xs| - 1];
      FilterMapMembers(init, f, keep, y);
      if exists i :: 0 <= i < |init| && f(init[i]) == y {
        var i :| 0 <= i < |init| && f(init[i]) == y;
        assert f(xs[i]) == y;
      }
      if exists i :: 0 <= i < |xs| && f(xs[i]) == y {
        var i :| 0 <= i < |xs| && f(xs[i]) == y;
        if i < |init| {
          assert f(init[i]) == y;
        }
      }
    }
  }

  predicate NoDuplicates<T(==)>(s: seq<T>) {
    forall i, j :: 0 <= i < j < |s| ==> s[i] != s[j]
  }

  /** The set of elements of `s`. */
  function Elements<T>(s: seq<T>): set<T> {
    set x | x in s
  }

  /**
    The reference definition: the last element is kept exactly when it does
    not occur earlier.
   */
  function Dedup<T(==)>(s: seq<T>): (d: seq<T>)
    ensures |d| <= |s|
    decreases |s|
  {
    if |s| == 0 then []
    else
      var init := s[..|s| - 1];
      var last := s[|s| - 1];
      Dedup(init) + (if last in init then [] else [last])
  }

  /**
    The result holds exactly the elements of the input, each once.
   */
  lemma {:induction false} DedupContents<T>(s: seq<T>)
    ensures forall i :: 0 <= i < |Dedup(s)| ==> Dedup(s)[i] in s
    ensures forall i :: 0 <= i < |s| ==> s[i] in Dedup(s)
    ensures NoDuplicates(Dedup(s))
    decreases |s|
  {
    if |s| > 0 {
      var init := s[..|s| - 1];
      var last := s[|s| - 1];
      assert s == init + [last];
      DedupContents(init);
      var d0 := Dedup(init);
      var d := Dedup(s);
      forall i | 0 <= i < |d|
        ensures d[i] in s
      {
        if i < |d0| {
          assert d0[i] in init;
        }
      }
      forall i | 0 <= i < |s|
        ensures s[i] in d
      {
        if i < |init| {
          assert init[i] in d0;
        }
      }
    }
  }

  /** The position of the first occurrence of `x` in `s`. */
  function IndexOf<T(==)>(s: seq<T>, x: T): (i: nat)
    requires x in s
    ensures i < |s| && s[i] == x && x !in s[..i]
    decreases |s|
  {
    if s[0] == x then 0
    else
      var j := IndexOf(s[1..], x);
      assert s[..j + 1] == [s[0]] + s[1..][..j];
      j + 1
  }

  /** Appending to a sequence does not move the first occurrence of anything already there. */
  lemma {:induction false} IndexOfAppend<T>(s: seq<T>, y: T, x: T)
    requires x in s
    ensures IndexOf(s + [y], x) == IndexOf(s, x)
    decreases |s|
  {
    if s[0] != x {
      assert (s + [y])[1..] == s[1..] + [y];
      IndexOfAppend(s[1..], y, x);
    }
  }

  /** The kept elements come in the order of their first occurrences. */
  lemma {:induction false} DedupKeepsFirstOccurrenceOrder<T>(s: seq<T>)
    ensures forall i :: 0 <= i < |Dedup(s)| ==> Dedup(s)[i] in s
    ensures forall i, j :: 0 <= i < j < |Dedup(s)| ==>
              IndexOf(s, Dedup(s)[i]) < IndexOf(s, Dedup(s)[j])
    decreases |s|
  {
    if |s| > 0 {
      var init := s[..|s| - 1];
      var last := s[|s| - 1];
      assert s == init + [last];
      DedupContents(s);
      DedupContents(init);
      DedupKeepsFirstOccurrenceOrder(init);
      var d := Dedup(s);
      var d0 := Dedup(init);
      forall i, j | 0 <= i < j < |d|
        ensures IndexOf(s, d[i]) < IndexOf(s, d[j])
      {
        IndexOfAppend(init, last, d[i]);
        if j < |d0| {
          IndexOfAppend(init, last, d[j]);
        } else {
          assert d[j] == last && last !in init;
          assert IndexOf(s, last) == |init|;
        }
      }
    }
  }

  /** A sequence without repeats has as many elements as its set. */
  lemma {:induction false} DedupSize<T>(s: seq<T>)
    ensures |Dedup(s)| == |Elements(s)|
    decreases |s|
  {
    if |s| > 0 {
      var init := s[..|s| - 1];
      var last := s[|s| - 1];
      assert s == init + [last];
      assert Elements(s) == Elements(init) + {last};
      DedupSize(init);
      if last !in init {
        assert last !in Elements(init);
      } else {
        assert last in Elements(init);
        assert Elements(s) == Elements(init);
        assert Dedup(s) == Dedup(init);
      }
    }
  }

  /** The elements of an extended sequence. */
  lemma ElementsAppend<T>(s: seq<T>, x: T)
    ensures Elements(s + [x]) == Elements(s) + {x}
  {
  }

  /** Extending the input by one element extends the result as the reference definition says. */
  lemma DedupAppend<T>(s: seq<T>, x: T)
    ensures Dedup(s + [x]) == Dedup(s) + (if x in s then [] else [x])
  {
    assert (s + [x])[..|s|] == s;
  }

  /**
    One more input element, seen through `FilterMap`: its image is kept if
    it passes, and joins the deduplicated result if it passes and was not
    kept before.
   */
  lemma DedupFilterMapStep<A, B>(xs: seq<A>, i: nat, f: A -> B, keep: B -> bool)
    requires i < |xs|
    ensures var before := FilterMap(xs[..i], f, keep);
            var y := f(xs[i]);
            && FilterMap(xs[..i + 1], f, keep) == before + (if keep(y) then [y] else [])
            && Dedup(FilterMap(xs[..i + 1], f, keep))
               == Dedup(before) + (if keep(y) && y !in before then [y] else [])
  {
    var before := FilterMap(xs[..i], f, keep);
    var y := f(xs[i]);
    assert xs[..i + 1] == xs[..i] + [xs[i]];
    FilterMapAppend(xs[..i], xs[i], f, keep);
    if keep(y) {
      DedupAppend(before, y);
      assert FilterMap(xs[..i + 1], f, keep) == before + [y];
    } else {
      assert FilterMap(xs[..i + 1], f, keep) == before;
    }
  }

  /** `out` is `g` applied to each element of `d`, in order. */
  ghost predicate Images<B, C>(out: seq<C>, d: seq<B>, g: B -> C) {
    |out| == |d| && forall k :: 0 <= k < |out| ==> out[k] == g(d[k])
  }

  /**
    One iteration of the loop below: if the next image passes and is not in
    `seen`, adding it to `seen`, to the deduplicated images and to the output
    keeps the loop's invariant; otherwise leaving all three alone does.
   */
  lemma CollectDistinctStep<A, B, C>(xs: seq<A>, i: nat, f: A -> B, keep: B -> bool, g: B -> C,
                                     seen: set<B>, d: seq<B>, out: seq<C>)
    requires i < |xs|
    requires seen == Elements(FilterMap(xs[..i], f, keep))
    requires d == Dedup(FilterMap(xs[..i], f, keep))
    requires Images(out, d, g)
    ensures var y := f(xs[i]);
            keep(y) && y !in seen ==>
              && seen + {y} == Elements(FilterMap(xs[..i + 1], f, keep))
              && d + [y] == Dedup(FilterMap(xs[..i + 1], f, keep))
              && Images(out + [g(y)], d + [y], g)
    ensures var y := f(xs[i]);
            !(keep(y) && y !in seen) ==>
              && seen == Elements(FilterMap(xs[..i + 1], f, keep))
              && d == Dedup(FilterMap(xs[..i + 1], f, keep))
  {
    var before := FilterMap(xs[..i], f, keep);
    var y := f(xs[i]);
    DedupFilterMapStep(xs, i, f, keep);
    assert y in seen <==> y in before;
    if keep(y) {
      ElementsAppend(before, y);
    }
  }

  /**
    The loop that removes repeats on the fly: walk `xs`, keep the images
    that pass `keep` and are not in the `seen` set yet, and emit `g` of each.
    It emits `g` of the reference `Dedup` of the kept images, in order.
   */
  method CollectDistinct<A, B(==), C>(xs: seq<A>, f: A -> B, keep: B -> bool, g: B -> C) returns (out: seq<C>)
    ensures |out| == |Dedup(FilterMap(xs, f, keep))|
    ensures forall k :: 0 <= k < |out| ==> out[k] == g(Dedup(FilterMap(xs, f, keep))[k])
  {
    out := [];
    ghost var d: seq<B> := [];
    var seen: set<B> := {};
    for i := 0 to |xs|
      invariant seen == Elements(FilterMap(xs[..i], f, keep))
      invariant d == Dedup(FilterMap(xs[..i], f, keep))
      invariant Images(out, d, g)
    {
      var y := f(xs[i]);
      CollectDistinctStep(xs, i, f, keep, g, seen, d, out);
      if keep(y) && y !in seen {
        seen := seen + {y};
        d := d + [y];
        out := out + [g(y)];
      }
    }
    assert xs[..|xs|] == xs;
  }
}
