/** The artifact loader: the in-memory structures built once, at startup, from
    the combined ratings table. The table holds one row per rating, so a movie
    appears once for every user who rated it; the catalog keeps one entry per
    movie, taken from the first row that mentions it, and the interaction
    table keeps every (user, movie) pair.
 */
module Loading {

  /** One row of the combined ratings table. */
  datatype Row = Row(userId: int, movieId: int, title: string, posterUrl: string)

  /** The metadata the catalog keeps for one movie. */
  datatype Entry = Entry(movieId: int, title: string, posterUrl: string)

  /** Evidence that user `userId` has rated movie `movieId`. */
  datatype Interaction = Interaction(userId: int, movieId: int)

  function ToEntry(row: Row): Entry {
    Entry(row.movieId, row.title, row.posterUrl)
  }

  /** The movie ids of a catalog, in catalog order. */
  function MovieIds(catalog: seq<Entry>): seq<int> {
    seq(|catalog|, i requires 0 <= i < |catalog| => catalog[i].movieId)
  }

  predicate Distinct(s: seq<int>) {
    forall i, j :: 0 <= i < j < |s| ==> s[i] != s[j]
  }

  /** Some row of the table is about movie `id`. */
  predicate Occurs(rows: seq<Row>, id: int) {
    exists i :: 0 <= i < |rows| && rows[i].movieId == id
  }

  /** The position of the first row about movie `id`. */
  function FirstRow(rows: seq<Row>, id: int): (k: nat)
    requires Occurs(rows, id)
    ensures k < |rows| && rows[k].movieId == id
    ensures forall j :: 0 <= j < k ==> rows[j].movieId != id
  {
    if rows[0].movieId == id then 0
    else
      var i :| 0 <= i < |rows| && rows[i].movieId == id;
      assert rows[1..][i - 1].movieId == id;
      1 + FirstRow(rows[1..], id)
  }

  /** The catalog: the rows projected onto (movie id, title, poster URL) and
      deduplicated by movie id, keeping the first row of each movie. The table
      is read front to back, so the catalog lists movies in the order of
      their first row. */
  function BuildCatalog(rows: seq<Row>): (catalog: seq<Entry>)
    ensures Distinct(MovieIds(catalog))
    ensures forall id :: id in MovieIds(catalog) <==> Occurs(rows, id)
  {
    if |rows| == 0 then []
    else
      var front := rows[..|rows| - 1];
      var last := rows[|rows| - 1];
      var c := BuildCatalog(front);
      OccursInFrontOrLast(rows);
      if last.movieId in MovieIds(c) then c
      else
        assert MovieIds(c + [ToEntry(last)]) == MovieIds(c) + [last.movieId];
        c + [ToEntry(last)]
  }

  /** A movie occurs in a non-empty table iff it occurs before the last row or in it. */
  lemma OccursInFrontOrLast(rows: seq<Row>)
    requires |rows| > 0
    ensures forall id :: Occurs(rows, id) <==>
      Occurs(rows[..|rows| - 1], id) || rows[|rows| - 1].movieId == id
  {
    var n := |rows| - 1;
    forall id | Occurs(rows, id) && rows[n].movieId != id
      ensures Occurs(rows[..n], id)
    {
      var i :| 0 <= i < |rows| && rows[i].movieId == id;
      assert rows[..n][i].movieId == id;
    }
    forall id | Occurs(rows[..n], id)
      ensures Occurs(rows, id)
    {
      var i :| 0 <= i < n && rows[..n][i].movieId == id;
      assert rows[i].movieId == id;
    }
  }

  /** The first row of a movie in a prefix of the table is its first row in
      the whole table. */
  lemma FirstRowOfPrefix(rows: seq<Row>, n: nat, id: int)
    requires n <= |rows| && Occurs(rows[..n], id)
    ensures Occurs(rows, id)
    ensures FirstRow(rows, id) == FirstRow(rows[..n], id)
  {
    var k := FirstRow(rows[..n], id);
    assert rows[k].movieId == id;
  }

  /** Every entry of `c` is the projection of the first row about its movie. */
  predicate KeepsFirstRows(rows: seq<Row>, c: seq<Entry>) {
    forall k :: 0 <= k < |c| ==>
      Occurs(rows, c[k].movieId) && c[k] == ToEntry(rows[FirstRow(rows, c[k].movieId)])
  }

  /** Both movies occur in the table, and the first row of `a` comes before that of `b`. */
  predicate FirstSeenBefore(rows: seq<Row>, a: int, b: int) {
    Occurs(rows, a) && Occurs(rows, b) && FirstRow(rows, a) < FirstRow(rows, b)
  }

  /** `c` lists its movies in the order of their first rows. */
  predicate InFirstRowOrder(rows: seq<Row>, c: seq<Entry>) {
    forall k, l :: 0 <= k < l < |c| ==> FirstSeenBefore(rows, c[k].movieId, c[l].movieId)
  }

  /** Every entry of the catalog built from a prefix of the table keeps its
      first row when the rest of the table is added. */
  lemma PrefixCatalogFirstRows(rows: seq<Row>, n: nat)
    requires n <= |rows|
    ensures var c := BuildCatalog(rows[..n]);
      forall k :: 0 <= k < |c| ==>
        Occurs(rows[..n], c[k].movieId) && Occurs(rows, c[k].movieId) &&
        FirstRow(rows, c[k].movieId) == FirstRow(rows[..n], c[k].movieId)
  {
    var c := BuildCatalog(rows[..n]);
    forall k | 0 <= k < |c|
      ensures Occurs(rows[..n], c[k].movieId) && Occurs(rows, c[k].movieId) &&
        FirstRow(rows, c[k].movieId) == FirstRow(rows[..n], c[k].movieId)
    {
      assert MovieIds(c)[k] == c[k].movieId;
      FirstRowOfPrefix(rows, n, c[k].movieId);
    }
  }

  /** The movie of the last row, when no earlier row mentions it, has its first row last. */
  lemma FirstRowIsLast(rows: seq<Row>)
    requires |rows| > 0 && !Occurs(rows[..|rows| - 1], rows[|rows| - 1].movieId)
    ensures Occurs(rows, rows[|rows| - 1].movieId)
    ensures FirstRow(rows, rows[|rows| - 1].movieId) == |rows| - 1
  {
    var n := |rows| - 1;
    assert Occurs(rows, rows[n].movieId);
    forall j | 0 <= j < n ensures rows[j].movieId != rows[n].movieId {
      assert rows[..n][j] == rows[j];
    }
  }

  /** Every catalog entry is the projection of the first row about its movie. */
  lemma {:induction false} CatalogKeepsFirstRows(rows: seq<Row>)
    ensures KeepsFirstRows(rows, BuildCatalog(rows))
  {
    if |rows| > 0 {
      var n := |rows| - 1;
      var front := rows[..n];
      var c0 := BuildCatalog(front);
      CatalogKeepsFirstRows(front);
      PrefixCatalogFirstRows(rows, n);
      forall k | 0 <= k < |c0|
        ensures Occurs(rows, c0[k].movieId) && c0[k] == ToEntry(rows[FirstRow(rows, c0[k].movieId)])
      {
        assert front[FirstRow(front, c0[k].movieId)] == rows[FirstRow(front, c0[k].movieId)];
      }
      if rows[n].movieId !in MovieIds(c0) {
        FirstRowIsLast(rows);
        assert BuildCatalog(rows) == c0 + [ToEntry(rows[n])];
      }
    }
  }

  /** Order by first row in a prefix of the table is order by first row in the table. */
  lemma OrderOfPrefix(rows: seq<Row>, n: nat, c: seq<Entry>)
    requires n <= |rows|
    requires forall k :: 0 <= k < |c| ==> Occurs(rows[..n], c[k].movieId)
    requires InFirstRowOrder(rows[..n], c)
    ensures InFirstRowOrder(rows, c)
  {
    forall k, l | 0 <= k < l < |c|
      ensures FirstSeenBefore(rows, c[k].movieId, c[l].movieId)
    {
      assert FirstSeenBefore(rows[..n], c[k].movieId, c[l].movieId);
      FirstRowOfPrefix(rows, n, c[k].movieId);
      FirstRowOfPrefix(rows, n, c[l].movieId);
    }
  }

  /** Appending an entry whose first row comes after those of `c` keeps the order. */
  lemma OrderAppend(rows: seq<Row>, c: seq<Entry>, e: Entry)
    requires InFirstRowOrder(rows, c) && Occurs(rows, e.movieId)
    requires forall k :: 0 <= k < |c| ==>
      Occurs(rows, c[k].movieId) && FirstRow(rows, c[k].movieId) < FirstRow(rows, e.movieId)
    ensures InFirstRowOrder(rows, c + [e])
  {
    var c' := c + [e];
    forall k, l | 0 <= k < l < |c'|
      ensures FirstSeenBefore(rows, c'[k].movieId, c'[l].movieId)
    {
      assert c'[k] == c[k];
      if l < |c| {
        assert c'[l] == c[l];
      }
    }
  }

  /** The catalog lists movies in the order of their first rows. */
  lemma {:induction false} CatalogInFirstRowOrder(rows: seq<Row>)
    ensures InFirstRowOrder(rows, BuildCatalog(rows))
  {
    if |rows| > 0 {
      var n := |rows| - 1;
      var c0 := BuildCatalog(rows[..n]);
      CatalogInFirstRowOrder(rows[..n]);
      forall k | 0 <= k < |c0| ensures Occurs(rows[..n], c0[k].movieId) {
        assert MovieIds(c0)[k] == c0[k].movieId;
      }
      OrderOfPrefix(rows, n, c0);
      if rows[n].movieId !in MovieIds(c0) {
        FirstRowIsLast(rows);
        forall k | 0 <= k < |c0|
          ensures Occurs(rows, c0[k].movieId) && FirstRow(rows, c0[k].movieId) < n
        {
          FirstRowOfPrefix(rows, n, c0[k].movieId);
        }
        OrderAppend(rows, c0, ToEntry(rows[n]));
      }
    }
  }

  /** The entry the catalog holds for movie `id` (the lookup by movie id). */
  function Find(catalog: seq<Entry>, id: int): (e: Entry)
    requires id in MovieIds(catalog)
    ensures e in catalog && e.movieId == id
  {
    if catalog[0].movieId == id then catalog[0]
    else
      assert MovieIds(catalog[1..]) == MovieIds(catalog)[1..];
      Find(catalog[1..], id)
  }

  /** The interaction table: every row projected onto (user id, movie id). */
  function Interactions(rows: seq<Row>): seq<Interaction> {
    seq(|rows|, i requires 0 <= i < |rows| => Interaction(rows[i].userId, rows[i].movieId))
  }

  /** Some interaction record exists for `user`. */
  predicate Known(interactions: seq<Interaction>, user: int) {
    exists i :: 0 <= i < |interactions| && interactions[i].userId == user
  }

  /** The interaction table records every rating of every user. */
  lemma InteractionsRecordEveryRating(rows: seq<Row>)
    ensures forall u, m :: Interaction(u, m) in Interactions(rows) <==>
      exists i :: 0 <= i < |rows| && rows[i].userId == u && rows[i].movieId == m
    ensures forall u :: Known(Interactions(rows), u) <==>
      exists i :: 0 <= i < |rows| && rows[i].userId == u
  {
    var t := Interactions(rows);
    forall u, m | Interaction(u, m) in t
      ensures exists i :: 0 <= i < |rows| && rows[i].userId == u && rows[i].movieId == m
    {
      var i :| 0 <= i < |t| && t[i] == Interaction(u, m);
    }
    forall u, m, i | 0 <= i < |rows| && rows[i].userId == u && rows[i].movieId == m
      ensures Interaction(u, m) in t
    {
      assert t[i] == Interaction(u, m);
    }
    forall u, i | 0 <= i < |rows| && rows[i].userId == u
      ensures Known(t, u)
    {
      assert t[i].userId == u;
    }
  }
}
