/** Ranking of scored candidates: the stable sort by estimated rating,
    descending, and the prefix slice that keeps the first `top_n` of them.
    The sort is stable, so candidates with equal estimates keep the order
    they had before sorting, also when the order is reversed.
 */
module Ranking {

  /** A candidate movie and the rating the model estimates for it. */
  datatype Prediction = Prediction(movieId: int, estimate: real)

  /** Estimates never increase along `s`. */
  predicate SortedDesc(s: seq<Prediction>) {
    forall i, j :: 0 <= i < j < |s| ==> s[i].estimate >= s[j].estimate
  }

  /** No movie appears twice in `s`. */
  predicate UniqueMovies(s: seq<Prediction>) {
    forall i, j :: 0 <= i < j < |s| ==> s[i].movieId != s[j].movieId
  }

  /** The predictions of `s` whose estimate is exactly `v`, in their order in `s`. */
  function Tied(s: seq<Prediction>, v: real): seq<Prediction> {
    if |s| == 0 then []
    else (if s[0].estimate == v then [s[0]] else []) + Tied(s[1..], v)
  }

  /** Inserts `p` in front of the first prediction whose estimate is not
      greater than its own, hence before every prediction it ties with. */
  function Insert(p: Prediction, s: seq<Prediction>): (r: seq<Prediction>)
    ensures multiset(r) == multiset(s) + multiset{p}
  {
    if |s| == 0 then [p]
    else if s[0].estimate > p.estimate then
      assert s == [s[0]] + s[1..];
      [s[0]] + Insert(p, s[1..])
    else [p] + s
  }

  /** Inserting adds `p` and nothing else. */
  lemma InsertMembers(p: Prediction, s: seq<Prediction>)
    ensures forall x :: x in Insert(p, s) ==> x == p || x in s
  {
    forall x | x in Insert(p, s) ensures x == p || x in s {
      assert x in multiset(Insert(p, s));
    }
  }

  /** Inserting into a descending sequence keeps it descending. */
  lemma {:induction false} InsertKeepsSorted(p: Prediction, s: seq<Prediction>)
    requires SortedDesc(s)
    ensures SortedDesc(Insert(p, s))
  {
    if |s| > 0 && s[0].estimate > p.estimate {
      var rest := Insert(p, s[1..]);
      InsertKeepsSorted(p, s[1..]);
      InsertMembers(p, s[1..]);
      forall x | x in rest ensures x.estimate <= s[0].estimate {
        if x != p {
          var j :| 0 <= j < |s[1..]| && s[1..][j] == x;
          assert s[j + 1] == x;
        }
      }
      var r := [s[0]] + rest;
      assert Insert(p, s) == r;
      forall i, j | 0 <= i < j < |r| ensures r[i].estimate >= r[j].estimate {
        if i == 0 {
          assert r[j] == rest[j - 1];
          assert r[j] in rest;
        } else {
          assert r[i] == rest[i - 1] && r[j] == rest[j - 1];
        }
      }
    }
  }

  /** `sort(key=estimate, reverse=True)` on a list of predictions. */
  function SortDesc(s: seq<Prediction>): (r: seq<Prediction>)
    ensures multiset(r) == multiset(s)
    ensures SortedDesc(r)
  {
    if |s| == 0 then []
    else
      assert s == [s[0]] + s[1..];
      InsertKeepsSorted(s[0], SortDesc(s[1..]));
      Insert(s[0], SortDesc(s[1..]))
  }

  lemma TiedCons(x: Prediction, s: seq<Prediction>, v: real)
    ensures Tied([x] + s, v) == (if x.estimate == v then [x] else []) + Tied(s, v)
  {
    assert ([x] + s)[1..] == s;
  }

  /** The first prediction of `s` is the first of those tied with it. */
  lemma TiedHead(s: seq<Prediction>)
    requires |s| > 0
    ensures Tied(s, s[0].estimate) == [s[0]] + Tied(s[1..], s[0].estimate)
  {
  }

  /** Every prediction tied at `v` comes from `s` and has estimate `v`. */
  lemma TiedMembers(s: seq<Prediction>, v: real)
    ensures forall x :: x in Tied(s, v) ==> x in s && x.estimate == v
  {
    if |s| > 0 {
      TiedMembers(s[1..], v);
    }
  }

  /** Inserting `p` puts it in front of the predictions it ties with. */
  lemma {:induction false} InsertTied(p: Prediction, s: seq<Prediction>, v: real)
    ensures Tied(Insert(p, s), v) == (if p.estimate == v then [p] else []) + Tied(s, v)
  {
    if |s| == 0 {
      TiedCons(p, [], v);
    } else if s[0].estimate > p.estimate {
      assert Insert(p, s) == [s[0]] + Insert(p, s[1..]);
      InsertTied(p, s[1..], v);
      TiedCons(s[0], Insert(p, s[1..]), v);
      TiedCons(s[0], s[1..], v);
      assert s == [s[0]] + s[1..];
    } else {
      TiedCons(p, s, v);
    }
  }

  /** The sort is stable: predictions with equal estimates keep their order. */
  lemma {:induction false} SortDescStable(s: seq<Prediction>)
    ensures forall v :: Tied(SortDesc(s), v) == Tied(s, v)
  {
    if |s| > 0 {
      SortDescStable(s[1..]);
      forall v ensures Tied(SortDesc(s), v) == Tied(s, v) {
        InsertTied(s[0], SortDesc(s[1..]), v);
        TiedCons(s[0], s[1..], v);
        assert s == [s[0]] + s[1..];
      }
    }
  }

  /** A descending order that keeps every group of ties in its original order
      is unique. */
  lemma {:induction false} StableDescendingOrderIsUnique(a: seq<Prediction>, b: seq<Prediction>)
    requires SortedDesc(a) && SortedDesc(b)
    requires forall v :: Tied(a, v) == Tied(b, v)
    ensures a == b
    decreases |a|
  {
    if |a| == 0 || |b| == 0 {
      if |b| > 0 {
        TiedHead(b);
      } else if |a| > 0 {
        TiedHead(a);
      }
    } else {
      assert a == [a[0]] + a[1..];
      assert b == [b[0]] + b[1..];
      var va, vb := a[0].estimate, b[0].estimate;
      TiedCons(a[0], a[1..], va);
      TiedCons(b[0], b[1..], vb);
      TiedMembers(b, va);
      TiedMembers(a, vb);
      assert a[0] in Tied(b, va);
      assert b[0] in Tied(a, vb);
      assert va == vb;
      TiedCons(a[0], a[1..], va);
      TiedCons(b[0], b[1..], va);
      assert Tied(a, va)[0] == a[0] && Tied(b, va)[0] == b[0];
      forall w ensures Tied(a[1..], w) == Tied(b[1..], w) {
        TiedCons(a[0], a[1..], w);
        TiedCons(b[0], b[1..], w);
        var head := if a[0].estimate == w then [a[0]] else [];
        assert Tied(a, w) == Tied(b, w);
        assert Tied(a[1..], w) == Tied(a, w)[|head|..];
        assert Tied(b[1..], w) == Tied(b, w)[|head|..];
      }
      StableDescendingOrderIsUnique(a[1..], b[1..]);
    }
  }

  /** SortDesc is Python's stable descending sort: any ordering of `s` that is
      descending and keeps ties in their original order is SortDesc(s). */
  lemma SortDescIsTheStableOrder(s: seq<Prediction>, t: seq<Prediction>)
    requires SortedDesc(t)
    requires forall v :: Tied(t, v) == Tied(s, v)
    ensures t == SortDesc(s)
  {
    SortDescStable(s);
    StableDescendingOrderIsUnique(t, SortDesc(s));
  }

  /** Sorting never brings two predictions for one movie together. */
  lemma {:induction false} SortDescKeepsUniqueMovies(s: seq<Prediction>)
    requires UniqueMovies(s)
    ensures UniqueMovies(SortDesc(s))
  {
    if |s| > 0 {
      SortDescKeepsUniqueMovies(s[1..]);
      var r := SortDesc(s[1..]);
      forall x | x in r ensures x.movieId != s[0].movieId {
        assert x in multiset(s[1..]);
        var j :| 0 <= j < |s[1..]| && s[1..][j] == x;
        assert s[j + 1] == x;
      }
      InsertKeepsUniqueMovies(s[0], r);
    }
  }

  lemma {:induction false} InsertKeepsUniqueMovies(p: Prediction, s: seq<Prediction>)
    requires UniqueMovies(s)
    requires forall x :: x in s ==> x.movieId != p.movieId
    ensures UniqueMovies(Insert(p, s))
  {
    if |s| > 0 && s[0].estimate > p.estimate {
      InsertKeepsUniqueMovies(p, s[1..]);
      var rest := Insert(p, s[1..]);
      forall x | x in rest ensures x.movieId != s[0].movieId {
        assert x in multiset(rest);
        if x != p {
          var j :| 0 <= j < |s[1..]| && s[1..][j] == x;
          assert s[j + 1] == x;
        }
      }
      assert Insert(p, s) == [s[0]] + rest;
    }
  }

  /** `x` occurs before `y` in `s` (as values, at two distinct positions). */
  predicate InOrder(s: seq<Prediction>, x: Prediction, y: Prediction) {
    exists p, q :: 0 <= p < q < |s| && s[p] == x && s[q] == y
  }

  /** Insert places `p` after a prefix of strictly better predictions. */
  lemma {:induction false} InsertSplits(p: Prediction, t: seq<Prediction>) returns (m: nat)
    ensures m <= |t| && Insert(p, t) == t[..m] + [p] + t[m..]
    ensures forall k :: 0 <= k < m ==> t[k].estimate > p.estimate
  {
    if |t| == 0 || t[0].estimate <= p.estimate {
      m := 0;
    } else {
      var m' := InsertSplits(p, t[1..]);
      m := m' + 1;
      assert t[..m] == [t[0]] + t[1..][..m'];
      assert t[m..] == t[1..][m'..];
    }
  }

  /** Every two tied predictions of `r` stand in the same order in `s`. */
  predicate TiesInOrder(s: seq<Prediction>, r: seq<Prediction>) {
    forall i, j :: 0 <= i < j < |r| && r[i].estimate == r[j].estimate ==> InOrder(s, r[i], r[j])
  }

  lemma InOrderCons(x: Prediction, s: seq<Prediction>, y: Prediction, z: Prediction)
    requires InOrder(s, y, z)
    ensures InOrder([x] + s, y, z)
  {
    var p, q :| 0 <= p < q < |s| && s[p] == y && s[q] == z;
    assert ([x] + s)[p + 1] == y && ([x] + s)[q + 1] == z;
  }

  /** Inserting the head of `[x] + s` into an order whose ties follow `s`
      gives an order whose ties follow `[x] + s`. */
  lemma {:induction false} InsertKeepsTieOrder(x: Prediction, s: seq<Prediction>, t: seq<Prediction>)
    requires multiset(t) == multiset(s) && TiesInOrder(s, t)
    ensures TiesInOrder([x] + s, Insert(x, t))
  {
    var r := Insert(x, t);
    var m := InsertSplits(x, t);
    assert forall k :: 0 <= k < m ==> r[k] == t[k];
    assert r[m] == x;
    assert forall k :: m < k < |r| ==> r[k] == t[k - 1];
    forall i, j | 0 <= i < j < |r| && r[i].estimate == r[j].estimate
      ensures InOrder([x] + s, r[i], r[j])
    {
      if i == m {
        assert r[j] in multiset(s);
        var q :| 0 <= q < |s| && s[q] == r[j];
        assert ([x] + s)[0] == r[i] && ([x] + s)[q + 1] == r[j];
      } else if j != m {
        var i' := if i < m then i else i - 1;
        var j' := if j < m then j else j - 1;
        assert t[i'] == r[i] && t[j'] == r[j] && i' < j';
        InOrderCons(x, s, r[i], r[j]);
      }
    }
  }

  /** Whenever two predictions tie in the sorted order, they stood in the same
      order before sorting. */
  lemma {:induction false} SortDescKeepsTieOrder(s: seq<Prediction>)
    ensures TiesInOrder(s, SortDesc(s))
  {
    if |s| > 0 {
      SortDescKeepsTieOrder(s[1..]);
      InsertKeepsTieOrder(s[0], s[1..], SortDesc(s[1..]));
      assert s == [s[0]] + s[1..];
    }
  }

  /** Python's slice `s[:n]`: the first `n` items when `n` is not negative,
      and all but the last `-n` items when it is. */
  function Slice<T>(s: seq<T>, n: int): (r: seq<T>)
    ensures |r| <= |s| && r == s[..|r|]
  {
    if 0 <= n then (if n <= |s| then s[..n] else s)
    else (if -n <= |s| then s[..|s| + n] else [])
  }

  lemma SliceLength<T>(s: seq<T>, n: int)
    ensures 0 <= n ==> |Slice(s, n)| == if n <= |s| then n else |s|
    ensures n < 0 ==> |Slice(s, n)| == if |s| + n >= 0 then |s| + n else 0
  {
  }
}
