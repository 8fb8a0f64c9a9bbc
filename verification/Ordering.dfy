/** The order of keys in an ordered map: strings compared character by
    character, a proper prefix first. */
module Ordering {
  import opened Sequences

  predicate Less(a: string, b: string) {
    if b == [] then false
    else if a == [] then true
    else if a[0] != b[0] then a[0] < b[0]
    else Less(a[1..], b[1..])
  }

  lemma {:induction false} LessIsTotal(a: string, b: string)
    ensures a != b ==> Less(a, b) || Less(b, a)
    ensures !(Less(a, b) && Less(b, a))
    ensures !Less(a, a)
  {
    if a != [] && b != [] && a[0] == b[0] {
      LessIsTotal(a[1..], b[1..]);
      assert a == [a[0]] + a[1..] && b == [b[0]] + b[1..];
    }
    LessIsIrreflexive(a);
  }

  lemma {:induction false} LessIsIrreflexive(a: string)
    ensures !Less(a, a)
  {
    if a != [] {
      LessIsIrreflexive(a[1..]);
    }
  }

  lemma {:induction false} LessIsTransitive(a: string, b: string, c: string)
    requires Less(a, b) && Less(b, c)
    ensures Less(a, c)
  {
    if a != [] && b != [] && c != [] && a[0] == b[0] == c[0] {
      LessIsTransitive(a[1..], b[1..], c[1..]);
    }
  }

  /** `a` and `b` agree up to `k`, and there `a` ends or has the smaller
      character. */
  ghost predicate PartsAt(a: string, b: string, k: int) {
    0 <= k <= |a| && k < |b| && a[..k] == b[..k] && (k == |a| || a[k] < b[k])
  }

  /** Less is deciding by the first place where the two part. */
  lemma {:induction false} LessIff(a: string, b: string)
    ensures Less(a, b) <==> exists k :: PartsAt(a, b, k)
  {
    forall k | PartsAt(a, b, k) && k > 0 ensures a != [] && b != [] && a[0] == b[0] {
      assert a[..k][0] == b[..k][0];
    }
    if a != [] && b != [] && a[0] == b[0] {
      LessIff(a[1..], b[1..]);
      if Less(a, b) {
        var k :| PartsAt(a[1..], b[1..], k);
        assert a[..k + 1] == [a[0]] + a[1..][..k] && b[..k + 1] == [b[0]] + b[1..][..k];
        assert PartsAt(a, b, k + 1);
      } else {
        forall k ensures !PartsAt(a, b, k) {
          if PartsAt(a, b, k) && k > 0 {
            assert a[1..][..k - 1] == a[..k][1..] == b[..k][1..] == b[1..][..k - 1];
            assert PartsAt(a[1..], b[1..], k - 1);
          }
        }
      }
    } else if Less(a, b) {
      assert PartsAt(a, b, 0);
    } else {
      assert forall k :: !PartsAt(a, b, k);
    }
  }

  /** Rows compared column by column. */
  predicate RowLess(a: seq<string>, b: seq<string>) {
    if b == [] then false
    else if a == [] then true
    else if a[0] != b[0] then Less(a[0], b[0])
    else RowLess(a[1..], b[1..])
  }

  /** Rows that agree up to a column are ordered by that column if they differ
      there. */
  lemma {:induction false} RowLessIs(a: seq<string>, b: seq<string>, k: nat)
    requires k < |a| && k < |b| && a[..k] == b[..k] && a[k] != b[k]
    ensures RowLess(a, b) <==> Less(a[k], b[k])
    decreases k
  {
    hide Less;
    if k > 0 {
      assert a[..k][0] == b[..k][0];
      assert a[1..][..k - 1] == a[..k][1..] == b[..k][1..] == b[1..][..k - 1];
      RowLessIs(a[1..], b[1..], k - 1);
    }
  }

  lemma {:induction false} RowLessIsTotal(a: seq<string>, b: seq<string>)
    ensures a != b ==> RowLess(a, b) || RowLess(b, a)
    ensures !(RowLess(a, b) && RowLess(b, a))
    ensures a == b ==> !RowLess(a, b)
  {
    hide Less;
    if a != [] && b != [] {
      LessIsTotal(a[0], b[0]);
      if a[0] == b[0] {
        RowLessIsTotal(a[1..], b[1..]);
        assert a == [a[0]] + a[1..] && b == [b[0]] + b[1..];
      }
    }
  }

  lemma {:induction false} RowLessIsTransitive(a: seq<string>, b: seq<string>, c: seq<string>)
    requires RowLess(a, b) && RowLess(b, c)
    ensures RowLess(a, c)
  {
    hide Less;
    if a != [] {
      if a[0] == b[0] == c[0] {
        RowLessIsTransitive(a[1..], b[1..], c[1..]);
      } else if a[0] != b[0] && b[0] != c[0] {
        LessIsTransitive(a[0], b[0], c[0]);
        LessIsTotal(a[0], c[0]);
        LessIsTotal(b[0], c[0]);
      }
    }
  }

  predicate IsLeast(x: string, s: set<string>) {
    x in s && forall y :: y in s && y != x ==> Less(x, y)
  }

  lemma {:induction false} FindLeast(s: set<string>) returns (x: string)
    requires s != {}
    ensures IsLeast(x, s)
    decreases |s|
  {
    var a :| a in s;
    if s == {a} {
      x := a;
    } else {
      assert s - {a} != {};
      var b := FindLeast(s - {a});
      LessIsTotal(a, b);
      if Less(a, b) {
        x := a;
        forall y | y in s && y != a ensures Less(a, y) {
          if y != b {
            LessIsTransitive(a, b, y);
          }
        }
      } else {
        x := b;
      }
    }
  }

  lemma LeastExists(s: set<string>)
    requires s != {}
    ensures exists x :: IsLeast(x, s)
  {
    var x := FindLeast(s);
  }

  lemma LeastIsUnique(x: string, y: string, s: set<string>)
    requires IsLeast(x, s) && IsLeast(y, s)
    ensures x == y
  {
    LessIsTotal(x, y);
  }

  function Least(s: set<string>): (x: string)
    requires s != {}
    ensures IsLeast(x, s)
  {
    LeastExists(s);
    assert forall x, y :: IsLeast(x, s) && IsLeast(y, s) ==> x == y by {
      forall x, y | IsLeast(x, s) && IsLeast(y, s) ensures x == y {
        LeastIsUnique(x, y, s);
      }
    }
    var x :| x in s && IsLeast(x, s);
    x
  }

  ghost predicate Sorted(s: seq<string>) {
    forall i, j :: 0 <= i < j < |s| ==> Less(s[i], s[j])
  }

  lemma SortedCons(x: string, rest: seq<string>)
    requires Sorted(rest) && forall y :: y in Elements(rest) ==> Less(x, y)
    ensures Sorted([x] + rest) && Elements([x] + rest) == {x} + Elements(rest)
  {
    hide Less;
    assert forall i :: 0 <= i < |rest| ==> rest[i] in Elements(rest);
  }

  /** The elements of a set in increasing order. */
  function SortedSeq(s: set<string>): (r: seq<string>)
    ensures Elements(r) == s && Sorted(r)
    decreases |s|
  {
    if s == {} then []
    else
      var x := Least(s);
      var rest := SortedSeq(s - {x});
      SortedCons(x, rest);
      [x] + rest
  }

  lemma SortedSingleton(x: string)
    ensures SortedSeq({x}) == [x]
  {
    assert Least({x}) == x && {x} - {x} == {};
    assert SortedSeq({}) == [];
    assert SortedSeq({x}) == [x] + SortedSeq({x} - {x});
  }
}
