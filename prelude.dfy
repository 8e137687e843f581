/** Small shared vocabulary: optional values, min/max, and a few sequence helpers. */
module Prelude {

  /** A value that may be absent, such as a metadata key a dictionary lacks. */
  datatype Option<+T> = None | Some(value: T) {
    /** The value, or `default` when absent (Python's `dict.get(key, default)`). */
    function GetOr(default: T): T {
      match this
      case Some(v) => v
      case None => default
    }
  }

  function MinNat(a: nat, b: nat): nat {
    if a <= b then a else b
  }

  function MaxReal(a: real, b: real): real {
    if a >= b then a else b
  }

  function MinReal(a: real, b: real): real {
    if a <= b then a else b
  }

  /** No element occurs twice. */
  predicate Distinct<T(==)>(s: seq<T>) {
    forall i, j | 0 <= i < j < |s| :: s[i] != s[j]
  }

  /** A sequence is without repeats exactly when it holds each value at most once. */
  lemma {:induction false} DistinctMultiplicity<T>(s: seq<T>)
    ensures Distinct(s) <==> forall x :: multiset(s)[x] <= 1
  {
    if s != [] {
      var a, r := s[0], s[1..];
      DistinctMultiplicity(r);
      assert s == [a] + r;
      assert multiset(s) == multiset{a} + multiset(r);
      if Distinct(s) {
        assert a !in r;
        assert Distinct(r) by {
          forall i, j | 0 <= i < j < |r| ensures r[i] != r[j] {
            assert s[i + 1] == r[i] && s[j + 1] == r[j];
          }
        }
      } else {
        var i, j :| 0 <= i < j < |s| && s[i] == s[j];
        if i == 0 {
          assert r[j - 1] == a;
          assert multiset(s)[a] >= 2;
        } else {
          assert r[i - 1] == r[j - 1];
          assert !Distinct(r);
          var x :| multiset(r)[x] > 1;
          assert multiset(s)[x] > 1;
        }
      }
    }
  }

  /** Reordering keeps a sequence free of repeats. */
  lemma DistinctPerm<T>(a: seq<T>, b: seq<T>)
    requires multiset(a) == multiset(b) && Distinct(a)
    ensures Distinct(b)
  {
    DistinctMultiplicity(a);
    DistinctMultiplicity(b);
  }

  /** A prefix of a sequence without repeats has none either. */
  lemma DistinctPrefix<T>(s: seq<T>, n: nat)
    requires Distinct(s) && n <= |s|
    ensures Distinct(s[..n])
  {
    var p := s[..n];
    forall i, j | 0 <= i < j < n ensures p[i] != p[j] {
      assert p[i] == s[i] && p[j] == s[j];
    }
  }

  /** In a sequence without repeats, no element occurs again later. */
  lemma DistinctNotLater<T>(s: seq<T>, i: nat)
    requires Distinct(s) && i < |s|
    ensures s[i] !in s[i + 1..]
  {
  }

  /** Position of the first `x` in `s` (Python's `s.index(x)`). */
  function IndexOf<T(==)>(s: seq<T>, x: T): (i: nat)
    requires x in s
    ensures i < |s| && s[i] == x && x !in s[..i]
  {
    if s[0] == x then 0
    else
      var i := 1 + IndexOf(s[1..], x);
      assert s[..i] == [s[0]] + s[1..][..i - 1];
      i
  }

  /** In a sequence without repeats, the element at `j` is first found at `j`. */
  lemma IndexOfDistinct<T>(s: seq<T>, j: nat)
    requires Distinct(s) && j < |s|
    ensures IndexOf(s, s[j]) == j
  {
    var i := IndexOf(s, s[j]);
    assert s[i] == s[j];
  }

  /** Python's `s[:n]` for `n >= 0`: the first `n` elements, or all of `s` if it is shorter. */
  function Take<T>(s: seq<T>, n: nat): (r: seq<T>)
    ensures |r| == MinNat(|s|, n)
    ensures r <= s
  {
    if |s| <= n then s else s[..n]
  }

  /** The set of values a sequence holds. */
  function Elements<T>(s: seq<T>): set<T> {
    set x | x in s
  }

  /** A sequence without repeats holds as many values as it has elements. */
  lemma {:induction false} DistinctCard<T>(s: seq<T>)
    requires Distinct(s)
    ensures |Elements(s)| == |s|
  {
    if s != [] {
      var r := s[1..];
      assert Distinct(r) by {
        forall i, j | 0 <= i < j < |r| ensures r[i] != r[j] {
          assert s[i + 1] == r[i] && s[j + 1] == r[j];
        }
      }
      DistinctCard(r);
      assert s == [s[0]] + r;
      assert Elements(s) == {s[0]} + Elements(r);
      assert s[0] !in Elements(r);
    }
  }

  /** Position of the last `x` in `s`. */
  function LastIndexOf<T(==)>(s: seq<T>, x: T): (i: nat)
    requires x in s
    ensures i < |s| && s[i] == x && x !in s[i + 1..]
  {
    if s[|s| - 1] == x then |s| - 1
    else
      var i := LastIndexOf(s[..|s| - 1], x);
      assert s[i + 1..] == s[..|s| - 1][i + 1..] + [s[|s| - 1]];
      i
  }

  /** A subset holds no more values than its superset. */
  lemma {:induction false} SubsetCard<T>(a: set<T>, b: set<T>)
    requires a <= b
    ensures |a| <= |b|
    decreases |a|
  {
    if a != {} {
      var x :| x in a;
      SubsetCard(a - {x}, b - {x});
    }
  }

  /** The numbers below `n`. */
  function Below(n: nat): set<nat> {
    if n == 0 then {} else Below(n - 1) + {n - 1}
  }

  lemma {:induction false} BelowFacts(n: nat)
    ensures |Below(n)| == n
    ensures forall i: nat :: i in Below(n) <==> i < n
  {
    if n > 0 {
      BelowFacts(n - 1);
    }
  }

  /** Pigeonhole: a sequence without repeats of numbers below `n` has at most `n` elements. */
  lemma DistinctBelow(s: seq<nat>, n: nat)
    requires Distinct(s)
    requires forall j | 0 <= j < |s| :: s[j] < n
    ensures |s| <= n
  {
    DistinctCard(s);
    BelowFacts(n);
    SubsetCard(Elements(s), Below(n));
  }

  /** Two sequences without repeats and without common values concatenate to one without repeats. */
  lemma DistinctConcat<T>(a: seq<T>, b: seq<T>)
    requires Distinct(a) && Distinct(b)
    requires forall x | x in a :: x !in b
    ensures Distinct(a + b)
  {
    var c := a + b;
    forall i, j | 0 <= i < j < |c| ensures c[i] != c[j] {
      if j >= |a| && i < |a| {
        assert c[i] in a && c[j] == b[j - |a|];
      } else if i >= |a| {
        assert c[i] == b[i - |a|] && c[j] == b[j - |a|];
      }
    }
  }
}
