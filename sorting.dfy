/**
 * Python's `sorted(items, key=lambda x: x[1], reverse=True)` over
 * `(id, score)` pairs. Python's sort is stable, also with `reverse=True`:
 * items with equal scores keep their original order. A stable sort has
 * exactly one possible result, so it is modelled here by a stable
 * insertion sort.
 */
module Sorting {

  /** A fused result: a document id and its score. */
  type Scored = (string, real)

  predicate SortedDesc(s: seq<Scored>) {
    forall i, j | 0 <= i < j < |s| :: s[i].1 >= s[j].1
  }

  /** The items of `s` whose score is `v`, in order. */
  function WithScore(s: seq<Scored>, v: real): seq<Scored>
  {
    if s == [] then []
    else (if s[0].1 == v then [s[0]] else []) + WithScore(s[1..], v)
  }

  /** The ids of `s`, in order. */
  function Ids(s: seq<Scored>): (r: seq<string>)
    ensures |r| == |s|
  {
    if s == [] then [] else [s[0].0] + Ids(s[1..])
  }

  lemma {:induction false} IdsIndex(s: seq<Scored>)
    ensures forall i | 0 <= i < |s| :: Ids(s)[i] == s[i].0
  {
    if s != [] {
      IdsIndex(s[1..]);
    }
  }

  /** Put `x` into the descending list `t`: before the first item it is not below, so before its equals. */
  function InsertDesc(x: Scored, t: seq<Scored>): seq<Scored>
  {
    if t == [] || x.1 >= t[0].1 then [x] + t
    else [t[0]] + InsertDesc(x, t[1..])
  }

  /** The stable descending sort. */
  function SortDesc(s: seq<Scored>): seq<Scored>
  {
    if s == [] then [] else InsertDesc(s[0], SortDesc(s[1..]))
  }

  lemma {:induction false} WithScoreConcat(a: seq<Scored>, b: seq<Scored>, v: real)
    ensures WithScore(a + b, v) == WithScore(a, v) + WithScore(b, v)
  {
    if a != [] {
      WithScoreConcat(a[1..], b, v);
      assert (a + b)[1..] == a[1..] + b;
    } else {
      assert a + b == b;
    }
  }

  lemma {:induction false} IdsConcat(a: seq<Scored>, b: seq<Scored>)
    ensures Ids(a + b) == Ids(a) + Ids(b)
  {
    if a != [] {
      IdsConcat(a[1..], b);
      assert (a + b)[1..] == a[1..] + b;
    } else {
      assert a + b == b;
    }
  }

  lemma {:induction false} InsertDescMembers(x: Scored, t: seq<Scored>)
    ensures forall y :: y in InsertDesc(x, t) <==> y == x || y in t
  {
    if t != [] && x.1 < t[0].1 {
      InsertDescMembers(x, t[1..]);
      assert t == [t[0]] + t[1..];
    }
  }

  lemma {:induction false} InsertDescPerm(x: Scored, t: seq<Scored>)
    ensures multiset(InsertDesc(x, t)) == multiset([x]) + multiset(t)
  {
    if t != [] && x.1 < t[0].1 {
      InsertDescPerm(x, t[1..]);
      assert t == [t[0]] + t[1..];
    }
  }

  lemma {:induction false} InsertDescIds(x: Scored, t: seq<Scored>)
    ensures multiset(Ids(InsertDesc(x, t))) == multiset([x.0]) + multiset(Ids(t))
  {
    if t == [] || x.1 >= t[0].1 {
      IdsConcat([x], t);
    } else {
      InsertDescIds(x, t[1..]);
      IdsConcat([t[0]], InsertDesc(x, t[1..]));
      IdsConcat([t[0]], t[1..]);
      assert t == [t[0]] + t[1..];
    }
  }

  lemma {:induction false} InsertDescSorted(x: Scored, t: seq<Scored>)
    requires SortedDesc(t)
    ensures SortedDesc(InsertDesc(x, t))
  {
    if t == [] || x.1 >= t[0].1 {
      var r := [x] + t;
      forall i, j | 0 <= i < j < |r| ensures r[i].1 >= r[j].1 {
        if i > 0 {
          assert r[i] == t[i - 1] && r[j] == t[j - 1];
        } else {
          assert r[j] == t[j - 1];
        }
      }
    } else {
      var t' := t[1..];
      InsertDescSorted(x, t');
      InsertDescMembers(x, t');
      var u := InsertDesc(x, t');
      var r := [t[0]] + u;
      forall i, j | 0 <= i < j < |r| ensures r[i].1 >= r[j].1 {
        if i > 0 {
          assert r[i] == u[i - 1] && r[j] == u[j - 1];
        } else {
          assert r[j] == u[j - 1] && u[j - 1] in u;
          if u[j - 1] != x {
            var k :| 0 <= k < |t'| && t'[k] == u[j - 1];
            assert t[k + 1] == u[j - 1];
          }
        }
      }
    }
  }

  lemma {:induction false} InsertDescStable(x: Scored, t: seq<Scored>, v: real)
    ensures WithScore(InsertDesc(x, t), v) == (if x.1 == v then [x] else []) + WithScore(t, v)
  {
    if t == [] || x.1 >= t[0].1 {
      WithScoreConcat([x], t, v);
    } else {
      InsertDescStable(x, t[1..], v);
      WithScoreConcat([t[0]], InsertDesc(x, t[1..]), v);
      WithScoreConcat([t[0]], t[1..], v);
      assert t == [t[0]] + t[1..];
    }
  }

  /** The sort returns the same items, counted with multiplicity. */
  lemma {:induction false} SortDescPerm(s: seq<Scored>)
    ensures multiset(SortDesc(s)) == multiset(s)
    ensures multiset(Ids(SortDesc(s))) == multiset(Ids(s))
  {
    if s != [] {
      SortDescPerm(s[1..]);
      InsertDescPerm(s[0], SortDesc(s[1..]));
      InsertDescIds(s[0], SortDesc(s[1..]));
      assert s == [s[0]] + s[1..];
      IdsConcat([s[0]], s[1..]);
    }
  }

  /** The sort's output is in non-increasing score order. */
  lemma {:induction false} SortDescSorted(s: seq<Scored>)
    ensures SortedDesc(SortDesc(s))
  {
    if s != [] {
      SortDescSorted(s[1..]);
      InsertDescSorted(s[0], SortDesc(s[1..]));
    }
  }

  /** Stability: the items of any one score come out in their input order. */
  lemma {:induction false} SortDescStable(s: seq<Scored>, v: real)
    ensures WithScore(SortDesc(s), v) == WithScore(s, v)
  {
    if s != [] {
      SortDescStable(s[1..], v);
      InsertDescStable(s[0], SortDesc(s[1..]), v);
    }
  }

  /** When every item has score `v`, selecting score `v` keeps them all. */
  lemma {:induction false} WithScoreAll(s: seq<Scored>, v: real)
    requires forall i | 0 <= i < |s| :: s[i].1 == v
    ensures WithScore(s, v) == s
  {
    if s != [] {
      WithScoreAll(s[1..], v);
    }
  }

  /** In a descending list, an item scoring strictly above every item with another id is at the front. */
  lemma StrictMaxFirst(f: seq<Scored>, j: nat)
    requires SortedDesc(f) && j < |f|
    requires forall i | 0 <= i < |f| && f[i].0 != f[j].0 :: f[i].1 < f[j].1
    ensures f[0].0 == f[j].0
  {
  }
}
