/** Lexicographic comparison by a sign-valued comparison of elements; a proper prefix comes first. */
module Lexicographic {

  function Lex<T>(cmp: (T, T) -> int, xs: seq<T>, ys: seq<T>): int {
    if xs == [] then (if ys == [] then 0 else -1)
    else if ys == [] then 1
    else if cmp(xs[0], ys[0]) != 0 then cmp(xs[0], ys[0])
    else Lex(cmp, xs[1..], ys[1..])
  }

  /** One step of the comparison, from position `i` on. */
  lemma LexFrom<T>(cmp: (T, T) -> int, xs: seq<T>, ys: seq<T>, i: nat)
    requires i <= |xs| && i <= |ys|
    ensures Lex(cmp, xs[i..], ys[i..])
         == if i == |xs| then (if i == |ys| then 0 else -1)
            else if i == |ys| then 1
            else if cmp(xs[i], ys[i]) != 0 then cmp(xs[i], ys[i])
            else Lex(cmp, xs[i + 1..], ys[i + 1..])
  {
    if i < |xs| && i < |ys| {
      assert xs[i..][1..] == xs[i + 1..] && ys[i..][1..] == ys[i + 1..];
    }
  }

  /** A total preorder given by signs. */
  ghost predicate IsOrder<T(!new)>(cmp: (T, T) -> int) {
    && (forall x :: cmp(x, x) == 0)
    && (forall x, y :: cmp(x, y) == -cmp(y, x))
    && (forall x, y, z :: cmp(x, y) <= 0 && cmp(y, z) <= 0 ==> cmp(x, z) <= 0)
  }

  lemma {:induction false} LexReflexive<T(!new)>(cmp: (T, T) -> int, xs: seq<T>)
    requires IsOrder(cmp)
    ensures Lex(cmp, xs, xs) == 0
  {
    if xs != [] { LexReflexive(cmp, xs[1..]); }
  }

  /** Where two lists are the same up to a position and differ there, that position decides. */
  lemma {:induction false} CommonPrefix<T(!new)>(cmp: (T, T) -> int, xs: seq<T>, ys: seq<T>, i: nat)
    requires IsOrder(cmp) && i < |xs| && i < |ys| && xs[..i] == ys[..i] && cmp(xs[i], ys[i]) != 0
    ensures Lex(cmp, xs, ys) == cmp(xs[i], ys[i])
  {
    if i > 0 {
      assert xs[0] == xs[..i][0] == ys[0];
      assert xs[1..][..i - 1] == xs[..i][1..] == ys[1..][..i - 1];
      CommonPrefix(cmp, xs[1..], ys[1..], i - 1);
    }
  }

  lemma {:induction false} LexAntisymmetric<T(!new)>(cmp: (T, T) -> int, xs: seq<T>, ys: seq<T>)
    requires IsOrder(cmp)
    ensures Lex(cmp, xs, ys) == -Lex(cmp, ys, xs)
  {
    if xs != [] && ys != [] { LexAntisymmetric(cmp, xs[1..], ys[1..]); }
  }

  lemma {:induction false} LexTransitive<T(!new)>(cmp: (T, T) -> int, xs: seq<T>, ys: seq<T>, zs: seq<T>)
    requires IsOrder(cmp) && Lex(cmp, xs, ys) <= 0 && Lex(cmp, ys, zs) <= 0
    ensures Lex(cmp, xs, zs) <= 0
  {
    if xs != [] && ys != [] && zs != [] {
      var x, y, z := xs[0], ys[0], zs[0];
      assert cmp(x, z) <= 0;
      if cmp(x, z) == 0 {
        assert cmp(z, x) <= 0;
        assert cmp(z, y) <= 0 && cmp(y, x) <= 0;
        assert cmp(y, z) == -cmp(z, y) && cmp(x, y) == -cmp(y, x);
        LexTransitive(cmp, xs[1..], ys[1..], zs[1..]);
      }
    }
  }

  lemma LexIsOrder<T(!new)>(cmp: (T, T) -> int)
    requires IsOrder(cmp)
    ensures IsOrder((xs, ys) => Lex(cmp, xs, ys))
  {
    forall xs { LexReflexive(cmp, xs); }
    forall xs, ys { LexAntisymmetric(cmp, xs, ys); }
    forall xs, ys, zs | Lex(cmp, xs, ys) <= 0 && Lex(cmp, ys, zs) <= 0 { LexTransitive(cmp, xs, ys, zs); }
  }

  // ---- The order by first difference --------------------------------------------------------

  /** They agree up to `k`, where the first runs out or has the lesser element. */
  ghost predicate LessAt<T>(less: (T, T) -> bool, xs: seq<T>, ys: seq<T>, k: nat) {
    && k <= |xs| && k < |ys| && xs[..k] == ys[..k]
    && (k == |xs| || less(xs[k], ys[k]))
  }

  ghost predicate FirstDifferenceLess<T>(less: (T, T) -> bool, xs: seq<T>, ys: seq<T>) {
    exists k: nat :: LessAt(less, xs, ys, k)
  }

  /** The comparison says less exactly when the relation does, and equal exactly for equal elements. */
  ghost predicate Decides<T(!new)>(cmp: (T, T) -> int, less: (T, T) -> bool) {
    && (forall x, y :: cmp(x, y) < 0 <==> less(x, y))
    && (forall x, y :: cmp(x, y) == 0 <==> x == y)
  }

  lemma {:induction false} LexDecides<T(!new)>(cmp: (T, T) -> int, less: (T, T) -> bool, xs: seq<T>, ys: seq<T>)
    requires Decides(cmp, less)
    ensures Lex(cmp, xs, ys) < 0 <==> FirstDifferenceLess(less, xs, ys)
    ensures Lex(cmp, xs, ys) == 0 <==> xs == ys
  {
    if ys == [] {
      assert !FirstDifferenceLess(less, xs, ys);
    } else if xs == [] || cmp(xs[0], ys[0]) < 0 {
      assert LessAt(less, xs, ys, 0);
    } else if cmp(xs[0], ys[0]) > 0 {
      forall k: nat | 0 < k <= |xs| && k <= |ys| ensures xs[..k] != ys[..k] {
        assert xs[..k][0] == xs[0] && ys[..k][0] == ys[0];
      }
      assert !FirstDifferenceLess(less, xs, ys);
    } else {
      LexDecides(cmp, less, xs[1..], ys[1..]);
      assert xs == [xs[0]] + xs[1..] && ys == [ys[0]] + ys[1..];
      if FirstDifferenceLess(less, xs[1..], ys[1..]) {
        var k: nat :| LessAt(less, xs[1..], ys[1..], k);
        assert xs[..k + 1] == [xs[0]] + xs[1..][..k] && ys[..k + 1] == [ys[0]] + ys[1..][..k];
        assert LessAt(less, xs, ys, k + 1);
      }
      if FirstDifferenceLess(less, xs, ys) {
        var k: nat :| LessAt(less, xs, ys, k);
        assert k > 0;
        assert xs[1..][..k - 1] == xs[..k][1..] && ys[1..][..k - 1] == ys[..k][1..];
        assert LessAt(less, xs[1..], ys[1..], k - 1);
      }
    }
  }

  lemma Singletons<T>(cmp: (T, T) -> int, less: (T, T) -> bool, x: T, y: T)
    ensures Lex(cmp, [x], [y]) == cmp(x, y)
    ensures FirstDifferenceLess(less, [x], [y]) ==> less(x, y)
  {}
}
