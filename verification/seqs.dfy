/** Sequence helpers shared by the symbol catalogues: duplicate-free lists
    kept in first-appearance order. */
module Seqs {

  /** No element occurs twice. */
  predicate NoDup<T(==)>(xs: seq<T>) {
    forall i, j :: 0 <= i < j < |xs| ==> xs[i] != xs[j]
  }

  /** The position of the first occurrence of `x` in `xs`. */
  function FirstIndex<T(==)>(xs: seq<T>, x: T): (i: nat)
    requires x in xs
    ensures i < |xs| && xs[i] == x
    ensures forall k :: 0 <= k < i ==> xs[k] != x
  {
    if xs[0] == x then 0 else 1 + FirstIndex(xs[1..], x)
  }

  /** Appends `x` unless it is already listed, as a catalogue does when it
      meets a symbol. */
  function AddNew<T(==)>(xs: seq<T>, x: T): seq<T> {
    if x in xs then xs else xs + [x]
  }

  /** Meets the elements of `xs` in order, appending each new one to `acc`. */
  function AddAll<T(==)>(acc: seq<T>, xs: seq<T>): seq<T> {
    if |xs| == 0 then acc else AddNew(AddAll(acc, xs[..|xs| - 1]), xs[|xs| - 1])
  }

  /** The distinct elements of `xs`, each at the place of its first
      occurrence: the result of meeting the elements of `xs` in order. */
  function Dedup<T(==)>(xs: seq<T>): seq<T> {
    AddAll([], xs)
  }

  /** Meeting one more element. */
  lemma AddAllSnoc<T>(acc: seq<T>, xs: seq<T>, x: T)
    ensures AddAll(acc, xs + [x]) == AddNew(AddAll(acc, xs), x)
  {
    assert (xs + [x])[..|xs + [x]| - 1] == xs;
  }

  /** Meeting elements never drops one already listed. */
  lemma {:induction false} AddAllKeeps<T>(acc: seq<T>, xs: seq<T>, x: T)
    requires x in acc
    ensures x in AddAll(acc, xs)
  {
    if |xs| > 0 {
      AddAllKeeps(acc, xs[..|xs| - 1], x);
    }
  }

  /** Meeting elements only appends: what was listed stays in place. */
  lemma {:induction false} AddAllPrefix<T>(acc: seq<T>, xs: seq<T>)
    ensures |acc| <= |AddAll(acc, xs)| && AddAll(acc, xs)[..|acc|] == acc
  {
    if |xs| > 0 {
      AddAllPrefix(acc, xs[..|xs| - 1]);
      var r := AddAll(acc, xs[..|xs| - 1]);
      assert (r + [xs[|xs| - 1]])[..|acc|] == r[..|acc|];
    }
  }

  /** Meeting `a + b` is meeting `a`, then `b`. */
  lemma {:induction false} AddAllAppend<T>(acc: seq<T>, a: seq<T>, b: seq<T>)
    ensures AddAll(acc, a + b) == AddAll(AddAll(acc, a), b)
  {
    if |b| > 0 {
      assert (a + b)[..|a + b| - 1] == a + b[..|b| - 1];
      assert (a + b)[|a + b| - 1] == b[|b| - 1];
      AddAllAppend(acc, a, b[..|b| - 1]);
    } else {
      assert a + b == a;
    }
  }

  /** Some listing of a finite set, each element once. */
  ghost function Listing<T(!new)>(xs: set<T>): (r: seq<T>)
    ensures NoDup(r)
    ensures forall x :: x in r <==> x in xs
    decreases |xs|
  {
    if xs == {} then []
    else
      var x :| x in xs;
      [x] + Listing(xs - {x})
  }

  /** `Dedup` keeps exactly the elements of its input and lists each once. */
  lemma {:induction false} DedupElements<T>(xs: seq<T>)
    ensures NoDup(Dedup(xs))
    ensures forall x :: x in Dedup(xs) <==> x in xs
  {
    if |xs| > 0 {
      var init := xs[..|xs| - 1];
      DedupElements(init);
      assert Dedup(xs) == AddNew(Dedup(init), xs[|xs| - 1]);
      assert xs == init + [xs[|xs| - 1]];
    }
  }

  /** `Dedup` lists the elements in the order of their first occurrence. */
  lemma {:induction false} DedupOrder<T>(xs: seq<T>)
    ensures forall i, j :: 0 <= i < j < |Dedup(xs)| ==>
      Dedup(xs)[i] in xs && Dedup(xs)[j] in xs &&
      FirstIndex(xs, Dedup(xs)[i]) < FirstIndex(xs, Dedup(xs)[j])
  {
    if |xs| > 0 {
      var init := xs[..|xs| - 1];
      var last := xs[|xs| - 1];
      var d := Dedup(init);
      assert Dedup(xs) == AddNew(d, last);
      assert xs == init + [last];
      DedupOrder(init);
      DedupElements(init);
      FirstIndexPrefix(init, last);
      var r := Dedup(xs);
      forall i, j | 0 <= i < j < |r|
        ensures r[i] in xs && r[j] in xs && FirstIndex(xs, r[i]) < FirstIndex(xs, r[j])
      {
        assert d[i] in init;
        FirstIndexAppend(init, [last], d[i]);
        if j < |d| {
          assert d[j] in init;
          FirstIndexAppend(init, [last], d[j]);
          assert r[i] == d[i] && r[j] == d[j];
          assert d[j] in init;
          assert FirstIndex(xs, r[i]) == FirstIndex(init, d[i]);
          assert FirstIndex(xs, r[j]) == FirstIndex(init, d[j]);
        } else {
          assert last !in init && r[j] == last && r[i] == d[i];
          assert FirstIndex(xs, r[i]) == FirstIndex(init, d[i]);
        }
      }
      assert r == Dedup(xs);
    } else {
      assert Dedup(xs) == [];
    }
  }

  /** The first occurrence of an element of a prefix lies within it. */
  lemma FirstIndexPrefix<T>(init: seq<T>, x: T)
    ensures forall y :: y in init ==> FirstIndex(init + [x], y) == FirstIndex(init, y)
    ensures x !in init ==> FirstIndex(init + [x], x) == |init|
  {
    forall y | y in init ensures FirstIndex(init + [x], y) == FirstIndex(init, y) {
      FirstIndexAppend(init, [x], y);
    }
    if x !in init {
      var s := init + [x];
      assert s[|init|] == x;
    }
  }

  lemma {:induction false} FirstIndexAppend<T>(a: seq<T>, b: seq<T>, y: T)
    requires y in a
    ensures FirstIndex(a + b, y) == FirstIndex(a, y)
  {
    if a[0] != y {
      assert (a + b)[1..] == a[1..] + b;
      FirstIndexAppend(a[1..], b, y);
    }
  }

  /** A subset is no larger than its superset. */
  lemma {:induction false} SubsetCard<T>(A: set<T>, B: set<T>)
    requires A <= B
    ensures |A| <= |B|
    decreases A
  {
    if A != {} {
      var x :| x in A;
      SubsetCard(A - {x}, B - {x});
    }
  }

  /** `g(0) + ... + g(n - 1)`. */
  function Sum(g: nat -> nat, n: nat): nat {
    if n == 0 then 0 else Sum(g, n - 1) + g(n - 1)
  }

  /** A sum of pointwise smaller terms is no larger, and strictly smaller
      when one term is. */
  lemma {:induction false} SumLess(g: nat -> nat, h: nat -> nat, n: nat, q: nat)
    requires forall k: nat :: k < n ==> g(k) <= h(k)
    ensures Sum(g, n) <= Sum(h, n)
    ensures q < n && g(q) < h(q) ==> Sum(g, n) < Sum(h, n)
  {
    if n > 0 {
      SumLess(g, h, n - 1, q);
    }
  }

  /** Taking away more of a universe leaves less of it. */
  lemma GapShrinks<T>(U: set<T>, X: set<T>, Y: set<T>)
    requires X <= Y
    ensures |U - Y| <= |U - X|
  {
    SubsetCard(U - Y, U - X);
  }

  /** Taking away one more element of a universe leaves strictly less. */
  lemma GapDrops<T>(U: set<T>, X: set<T>, Y: set<T>, t: T)
    requires X <= Y && t in U && t in Y && t !in X
    ensures |U - Y| < |U - X|
  {
    var B := U - X;
    assert U - Y <= B - {t};
    SubsetCard(U - Y, B - {t});
    assert |B - {t}| == |B| - 1;
  }

  /** The elements of a sequence, as a set. */
  function Elems<T(!new)>(xs: seq<T>): (r: set<T>)
    ensures forall x :: x in r <==> x in xs
  {
    set x | x in xs
  }

  /** A duplicate-free sequence has as many elements as its set. */
  lemma {:induction false} NoDupCard<T(!new)>(xs: seq<T>)
    requires NoDup(xs)
    ensures |Elems(xs)| == |xs|
  {
    if |xs| > 0 {
      var init := xs[..|xs| - 1];
      var last := xs[|xs| - 1];
      assert xs == init + [last];
      NoDupCard(init);
      assert Elems(xs) == Elems(init) + {last};
      assert last !in init;
    }
  }
}
