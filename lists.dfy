/**
  Lists that keep the first occurrence of each value: the used-languages list
  of the highlight loop grows this way, and `array_unique` leaves the
  requested CSS files this way.
*/
module Lists {
  /** No value occurs twice. */
  predicate NoDup<T(==)>(xs: seq<T>) {
    forall i, j :: 0 <= i < j < |xs| ==> xs[i] != xs[j]
  }

  /** `acc` followed by the values of `xs` that are new at the time they are
      met, in the order met. */
  function AppendNew<T(==)>(acc: seq<T>, xs: seq<T>): seq<T>
    decreases |xs|
  {
    if xs == [] then acc
    else
      var r := AppendNew(acc, xs[..|xs| - 1]);
      if xs[|xs| - 1] in r then r else r + [xs[|xs| - 1]]
  }

  /** `array_unique` followed by iteration: each value once, at its first occurrence. */
  function Dedup<T(==)>(xs: seq<T>): seq<T> {
    AppendNew([], xs)
  }

  /** The list only grows, holds exactly the values of both inputs, and stays
      free of duplicates. */
  lemma {:induction false} AppendNewGrows<T>(acc: seq<T>, xs: seq<T>)
    ensures acc <= AppendNew(acc, xs)
    ensures forall v :: v in AppendNew(acc, xs) <==> v in acc || v in xs
    ensures NoDup(acc) ==> NoDup(AppendNew(acc, xs))
    decreases |xs|
  {
    if xs != [] {
      var init := xs[..|xs| - 1];
      AppendNewGrows(acc, init);
      assert xs == init + [xs[|xs| - 1]];
    }
  }

  /** Values met earlier are not added again, so a list without duplicates
      comes back unchanged. */
  lemma {:induction false} DedupKeepsDistinct<T>(xs: seq<T>)
    requires NoDup(xs)
    ensures Dedup(xs) == xs
    decreases |xs|
  {
    if xs != [] {
      var init := xs[..|xs| - 1];
      assert NoDup(init);
      DedupKeepsDistinct(init);
      assert xs[|xs| - 1] !in init;
      assert xs == init + [xs[|xs| - 1]];
    }
  }

  /** Seen from the front: the first value is kept, and every later copy of it
      is dropped. */
  lemma {:induction false} AppendNewFront<T>(acc: seq<T>, x: T, xs: seq<T>)
    ensures AppendNew(acc, [x] + xs) == AppendNew(if x in acc then acc else acc + [x], xs)
    decreases |xs|
  {
    if xs == [] {
      assert ([x] + xs)[..0] == [];
    } else {
      var init := xs[..|xs| - 1];
      AppendNewFront(acc, x, init);
      assert ([x] + xs)[..|xs|] == [x] + init;
      assert ([x] + xs)[|xs|] == xs[|xs| - 1];
    }
  }

  /** `array_unique` keeps the first copy: a value already met is dropped. */
  lemma DedupDropsRepeat<T>(xs: seq<T>, x: T)
    requires x in xs
    ensures Dedup(xs + [x]) == Dedup(xs)
  {
    assert (xs + [x])[..|xs + [x]| - 1] == xs;
    AppendNewGrows([], xs);
  }

  /** Concatenation regrouped. */
  lemma AppendAssoc<T>(a: seq<T>, b: seq<T>, c: seq<T>)
    ensures (a + b) + c == a + (b + c)
  {
  }

  /** Nothing appended. */
  lemma AppendNil<T>(a: seq<T>)
    ensures a + [] == a
  {
  }

  /** Concatenation of four regrouped. */
  lemma Regroup<T>(a: seq<T>, b: seq<T>, c: seq<T>, d: seq<T>)
    ensures ((a + b) + c) + d == a + ((b + c) + d)
  {
  }

  /** The first `k + 1` values, then their first `k`. */
  lemma TakeOneMore<T>(xs: seq<T>, k: nat)
    requires k < |xs|
    ensures xs[..k + 1][..k] == xs[..k] && xs[..k + 1][k] == xs[k]
  {
  }

  /** A new value at the end keeps a list free of duplicates. */
  lemma NoDupSnoc<T>(xs: seq<T>, x: T)
    requires NoDup(xs) && x !in xs
    ensures NoDup(xs + [x])
  {
  }

  /** `f` applied to every value, in order. */
  function MapSeq<A, B>(f: A -> B, xs: seq<A>): (r: seq<B>)
    ensures |r| == |xs|
    decreases |xs|
  {
    if xs == [] then [] else MapSeq(f, xs[..|xs| - 1]) + [f(xs[|xs| - 1])]
  }

  /** Entry `i` of the mapped list is `f` of entry `i`. */
  lemma {:induction false} MapSeqAt<A, B>(f: A -> B, xs: seq<A>, i: nat)
    requires i < |xs|
    ensures MapSeq(f, xs)[i] == f(xs[i])
    decreases |xs|
  {
    if i < |xs| - 1 {
      MapSeqAt(f, xs[..|xs| - 1], i);
    }
  }
}
