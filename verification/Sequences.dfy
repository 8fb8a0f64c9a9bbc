/** Sequence vocabulary shared by the models. */
module Sequences {

  ghost predicate Distinct<T>(s: seq<T>) {
    forall i, j :: 0 <= i < j < |s| ==> s[i] != s[j]
  }

  function Elements<T>(s: seq<T>): set<T> {
    set x | x in s
  }

  /** Where `x` first occurs in `s`, or `|s|`. */
  function FirstIndex<T(==)>(s: seq<T>, x: T): (k: nat)
    ensures k <= |s|
    ensures k < |s| ==> s[k] == x
    ensures forall i :: 0 <= i < k ==> s[i] != x
    ensures x in s <==> k < |s|
  {
    if s == [] then 0
    else if s[0] == x then 0
    else
      assert forall i :: 1 <= i < |s| ==> s[i] == s[1..][i - 1];
      1 + FirstIndex(s[1..], x)
  }

  /** `base`, then each element of `xs` not yet present: what pushing the
      elements one by one through a "seen" set leaves behind. */
  function AppendNew<T(==, !new)>(base: seq<T>, xs: seq<T>): (r: seq<T>)
    ensures base <= r
    ensures forall x :: x in r <==> x in base || x in xs
    decreases |xs|
  {
    if xs == [] then base
    else AppendNew(if xs[0] in base then base else base + [xs[0]], xs[1..])
  }

  lemma {:induction false} AppendNewConcat<T(!new)>(base: seq<T>, xs: seq<T>, ys: seq<T>)
    ensures AppendNew(base, xs + ys) == AppendNew(AppendNew(base, xs), ys)
    decreases |xs|
  {
    if xs == [] {
      assert xs + ys == ys;
    } else {
      assert (xs + ys)[1..] == xs[1..] + ys;
      AppendNewConcat(if xs[0] in base then base else base + [xs[0]], xs[1..], ys);
    }
  }

  lemma {:induction false} AppendNewPresent<T(!new)>(base: seq<T>, xs: seq<T>)
    requires forall x :: x in xs ==> x in base
    ensures AppendNew(base, xs) == base
  {
    if xs != [] {
      AppendNewPresent(base, xs[1..]);
    }
  }

  /** What is appended is new, appears once, and comes in the order in which
      `xs` first mentions it. */
  lemma {:induction false} AppendNewOrder<T(!new)>(base: seq<T>, xs: seq<T>, i: nat, j: nat)
    requires |base| <= i < j < |AppendNew(base, xs)|
    ensures var r := AppendNew(base, xs);
            && r[i] !in base
            && r[j] !in base
            && r[i] != r[j]
            && FirstIndex(xs, r[i]) < FirstIndex(xs, r[j])
    decreases |xs|
  {
    var r := AppendNew(base, xs);
    if xs != [] {
      var next := if xs[0] in base then base else base + [xs[0]];
      if |next| <= i {
        AppendNewOrder(next, xs[1..], i, j);
      } else {
        assert r[..|next|] == next;
        assert r[i] == xs[0];
        if j == i + 1 {
          AppendNewSuffix(next, xs[1..], j);
        } else {
          AppendNewOrder(next, xs[1..], i + 1, j);
        }
        AppendNewSuffix(next, xs[1..], j);
      }
    }
  }

  lemma {:induction false} AppendNewSuffix<T(!new)>(base: seq<T>, xs: seq<T>, j: nat)
    requires |base| <= j < |AppendNew(base, xs)|
    ensures AppendNew(base, xs)[j] !in base && AppendNew(base, xs)[j] in xs
    decreases |xs|
  {
    if xs != [] {
      var next := if xs[0] in base then base else base + [xs[0]];
      if |next| <= j {
        AppendNewSuffix(next, xs[1..], j);
      } else {
        assert AppendNew(base, xs)[..|next|] == next;
      }
    }
  }
}
