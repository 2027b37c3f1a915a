/** The recommendation service: the state left behind by startup loading and
    the one query operation, `Recommend`, that ranks the movies a user has not
    rated by the rating the pre-trained model estimates for them.
    The model is an opaque scoring function `(user, movie) -> estimate`.
 */
module Recommender {
  import opened Loading
  import opened Ranking

  datatype Option<T> = None | Some(value: T)

  /** The two ways a request can fail. */
  datatype Failure =
    | Unavailable              // model or movie metadata not loaded
    | UserNotFound(userId: int) // no interaction record for the user

  datatype Result<T> = Ok(value: T) | Err(failure: Failure)

  /** The HTTP status each failure is reported with. */
  function StatusCode(f: Failure): int {
    match f
    case Unavailable => 503
    case UserNotFound(_) => 404
  }

  /** The pre-trained model: the rating it estimates for (user, movie). */
  type Scorer = (int, int) -> real

  /** The structures derived from the ratings table. */
  datatype Tables = Tables(catalog: seq<Entry>, interactions: seq<Interaction>)

  /** The process-wide state: each part is absent until loaded. */
  datatype Service = Service(model: Option<Scorer>, tables: Option<Tables>)

  /** One record of the response. */
  datatype Recommendation =
    Recommendation(movieId: int, title: string, posterUrl: string, estimatedRating: real)

  /** The state before startup has loaded anything. */
  const Unloaded: Service := Service(None, None)

  /** The number of recommendations asked for when the request names none. */
  const DefaultTopN: int := 10

  predicate Ready(svc: Service) {
    svc.model.Some? && svc.tables.Some?
  }

  /** Startup loading. `modelArtifact` is the deserialised model, or None when
      its file is missing; `table` is the ratings table, or None when its file
      is missing. A missing model aborts loading before the table is read; a
      failed load leaves the service up, but not ready. */
  function Load(modelArtifact: Option<Scorer>, table: Option<seq<Row>>): (svc: Service)
    ensures svc.model == modelArtifact
    ensures Ready(svc) <==> modelArtifact.Some? && table.Some?
    ensures modelArtifact.None? ==> svc.model.None? && svc.tables.None?
    ensures modelArtifact.Some? && table.Some? ==>
      Distinct(MovieIds(svc.tables.value.catalog)) &&
      forall id :: id in MovieIds(svc.tables.value.catalog) <==> Occurs(table.value, id)
    ensures modelArtifact.Some? && table.Some? ==>
      KeepsFirstRows(table.value, svc.tables.value.catalog) &&
      InFirstRowOrder(table.value, svc.tables.value.catalog)
    ensures modelArtifact.Some? && table.Some? ==> forall u, m ::
      Interaction(u, m) in svc.tables.value.interactions <==>
        exists i :: 0 <= i < |table.value| && table.value[i].userId == u && table.value[i].movieId == m
    ensures modelArtifact.Some? && table.Some? ==> forall u ::
      Known(svc.tables.value.interactions, u) <==>
        exists i :: 0 <= i < |table.value| && table.value[i].userId == u
  {
    match modelArtifact
    case None => Unloaded
    case Some(scorer) =>
      match table
      case None => Service(Some(scorer), None)
      case Some(rows) =>
        CatalogKeepsFirstRows(rows);
        CatalogInFirstRowOrder(rows);
        InteractionsRecordEveryRating(rows);
        Service(Some(scorer), Some(Tables(BuildCatalog(rows), Interactions(rows))))
  }

  /** The movies `user` has rated, one per interaction record, in table order. */
  function SeenBy(interactions: seq<Interaction>, user: int): (seen: seq<int>)
    ensures forall m :: m in seen <==> Interaction(user, m) in interactions
    ensures |seen| == 0 <==> !Known(interactions, user)
  {
    if |interactions| == 0 then []
    else
      var rest := SeenBy(interactions[1..], user);
      assert interactions == [interactions[0]] + interactions[1..];
      assert Known(interactions, user) <==>
        interactions[0].userId == user || Known(interactions[1..], user) by {
        if Known(interactions[1..], user) {
          var i :| 0 <= i < |interactions[1..]| && interactions[1..][i].userId == user;
          assert interactions[i + 1].userId == user;
        }
        if Known(interactions, user) && interactions[0].userId != user {
          var i :| 0 <= i < |interactions| && interactions[i].userId == user;
          assert interactions[1..][i - 1].userId == user;
        }
      }
      if interactions[0].userId == user then [interactions[0].movieId] + rest else rest
  }

  /** `a` is `b` with some items deleted. */
  predicate IsSubsequence(a: seq<int>, b: seq<int>)
    decreases |b|
  {
    if |a| == 0 then true
    else if |b| == 0 then false
    else (a[0] == b[0] && IsSubsequence(a[1..], b[1..])) || IsSubsequence(a, b[1..])
  }

  /** The catalog ids not in `seen`, in catalog order. */
  function Candidates(ids: seq<int>, seen: seq<int>): (c: seq<int>)
    ensures forall m :: m in c <==> m in ids && m !in seen
    ensures IsSubsequence(c, ids)
  {
    if |ids| == 0 then []
    else
      var rest := Candidates(ids[1..], seen);
      if ids[0] in seen then rest
      else
        assert ([ids[0]] + rest)[1..] == rest;
        [ids[0]] + rest
  }

  /** The candidates keep every occurrence of an unseen id and none of a seen one. */
  lemma {:induction false} CandidatesKeepUnseenOccurrences(ids: seq<int>, seen: seq<int>)
    ensures forall m :: multiset(Candidates(ids, seen))[m] == if m in seen then 0 else multiset(ids)[m]
  {
    if |ids| > 0 {
      CandidatesKeepUnseenOccurrences(ids[1..], seen);
      assert ids == [ids[0]] + ids[1..];
    }
  }

  /** The movies of the catalog `user` has not rated. */
  function UnseenMovies(t: Tables, user: int): seq<int> {
    Candidates(MovieIds(t.catalog), SeenBy(t.interactions, user))
  }

  /** Every candidate paired with the model's estimate for it. */
  function ScoreAll(scorer: Scorer, user: int, cands: seq<int>): seq<Prediction> {
    seq(|cands|, i requires 0 <= i < |cands| => Prediction(cands[i], scorer(user, cands[i])))
  }

  /** Attaches the catalog's title and poster to each prediction. */
  function Join(catalog: seq<Entry>, top: seq<Prediction>): (recs: seq<Recommendation>)
    requires forall i :: 0 <= i < |top| ==> top[i].movieId in MovieIds(catalog)
    ensures |recs| == |top|
    ensures forall i :: 0 <= i < |recs| ==>
      && recs[i].movieId == top[i].movieId && recs[i].estimatedRating == top[i].estimate
      && Entry(recs[i].movieId, recs[i].title, recs[i].posterUrl) in catalog
  {
    seq(|top|, i requires 0 <= i < |top| =>
      var e := Find(catalog, top[i].movieId);
      Recommendation(top[i].movieId, e.title, e.posterUrl, top[i].estimate))
  }

  /** The ranked predictions hold exactly the candidates, each with its estimate. */
  lemma RankedMovies(scorer: Scorer, user: int, cands: seq<int>)
    ensures forall x :: x in SortDesc(ScoreAll(scorer, user, cands)) <==>
      x.movieId in cands && x.estimate == scorer(user, x.movieId)
  {
    var preds := ScoreAll(scorer, user, cands);
    var ranked := SortDesc(preds);
    forall x: Prediction ensures x in ranked <==> x in preds {
      assert x in ranked <==> x in multiset(ranked);
      assert x in preds <==> x in multiset(preds);
    }
    forall x: Prediction | x.movieId in cands && x.estimate == scorer(user, x.movieId)
      ensures x in preds
    {
      var i :| 0 <= i < |cands| && cands[i] == x.movieId;
      assert preds[i] == x;
    }
  }

  /** The recommendation request for `user`, asking for `topN` results. */
  function Recommend(svc: Service, user: int, topN: int): (r: Result<seq<Recommendation>>)
    ensures r == Err(Unavailable) <==> !Ready(svc)
    ensures Ready(svc) ==>
      (r == Err(UserNotFound(user)) <==> !Known(svc.tables.value.interactions, user))
    ensures Ready(svc) && Known(svc.tables.value.interactions, user) ==> r.Ok?
    ensures r.Err? ==> StatusCode(r.failure) == if Ready(svc) then 404 else 503
  {
    if svc.model.None? || svc.tables.None? then Err(Unavailable)
    else
      var t := svc.tables.value;
      var seen := SeenBy(t.interactions, user);
      if |seen| == 0 then Err(UserNotFound(user))
      else
        var cands := Candidates(MovieIds(t.catalog), seen);
        var ranked := SortDesc(ScoreAll(svc.model.value, user, cands));
        var top := Slice(ranked, topN);
        RankedMovies(svc.model.value, user, cands);
        assert forall i :: 0 <= i < |top| ==> top[i] in ranked;
        Ok(Join(t.catalog, top))
  }

  /** The movie ids of a response, in response order. */
  function ReturnedIds(recs: seq<Recommendation>): seq<int> {
    seq(|recs|, i requires 0 <= i < |recs| => recs[i].movieId)
  }

  /** The steps of a successful request: the user is known, and the response
      is the ranked unseen movies cut to `topN`, with catalog metadata attached. */
  lemma SuccessfulRequest(svc: Service, user: int, topN: int)
    returns (cands: seq<int>, ranked: seq<Prediction>, top: seq<Prediction>)
    requires Recommend(svc, user, topN).Ok?
    ensures Ready(svc) && Known(svc.tables.value.interactions, user)
    ensures cands == UnseenMovies(svc.tables.value, user)
    ensures ranked == SortDesc(ScoreAll(svc.model.value, user, cands))
    ensures top == Slice(ranked, topN)
    ensures var recs := Recommend(svc, user, topN).value;
      |recs| == |top| &&
      forall i :: 0 <= i < |recs| ==>
        recs[i].movieId == top[i].movieId && recs[i].estimatedRating == top[i].estimate &&
        Entry(recs[i].movieId, recs[i].title, recs[i].posterUrl) in svc.tables.value.catalog
  {
    var t := svc.tables.value;
    cands := UnseenMovies(t, user);
    ranked := SortDesc(ScoreAll(svc.model.value, user, cands));
    top := Slice(ranked, topN);
    RankedMovies(svc.model.value, user, cands);
    assert forall i :: 0 <= i < |top| ==> top[i] in ranked;
    assert Recommend(svc, user, topN).value == Join(t.catalog, top);
  }

  /** The unseen movies are exactly the catalog's movies with no interaction
      record for the user. */
  lemma UnseenMoviesAreUnrated(t: Tables, user: int)
    ensures forall m :: m in UnseenMovies(t, user) <==>
      m in MovieIds(t.catalog) && Interaction(user, m) !in t.interactions
  {
  }

  /** Every recommendation is a catalog movie the user has not rated, carries
      that movie's catalog title and poster, and the model's estimate for it. */
  lemma RecommendationsAreUnratedCatalogMovies(svc: Service, user: int, topN: int)
    ensures var r := Recommend(svc, user, topN);
      r.Ok? ==> forall i :: 0 <= i < |r.value| ==>
        && Entry(r.value[i].movieId, r.value[i].title, r.value[i].posterUrl) in svc.tables.value.catalog
        && Interaction(user, r.value[i].movieId) !in svc.tables.value.interactions
        && r.value[i].estimatedRating == svc.model.value(user, r.value[i].movieId)
  {
    if Recommend(svc, user, topN).Ok? {
      var recs := Recommend(svc, user, topN).value;
      var cands, ranked, top := SuccessfulRequest(svc, user, topN);
      RankedMovies(svc.model.value, user, cands);
      UnseenMoviesAreUnrated(svc.tables.value, user);
      forall i | 0 <= i < |recs|
        ensures Interaction(user, recs[i].movieId) !in svc.tables.value.interactions
        ensures recs[i].estimatedRating == svc.model.value(user, recs[i].movieId)
      {
        assert top[i] == ranked[i];
        assert ranked[i] in ranked;
      }
    }
  }

  /** Estimated ratings never increase along the response. */
  lemma RecommendationsDescend(svc: Service, user: int, topN: int)
    ensures var r := Recommend(svc, user, topN);
      r.Ok? ==> forall i, j :: 0 <= i < j < |r.value| ==>
        r.value[i].estimatedRating >= r.value[j].estimatedRating
  {
    if Recommend(svc, user, topN).Ok? {
      var recs := Recommend(svc, user, topN).value;
      var cands, ranked, top := SuccessfulRequest(svc, user, topN);
      forall i, j | 0 <= i < j < |recs|
        ensures recs[i].estimatedRating >= recs[j].estimatedRating
      {
        assert top[i] == ranked[i] && top[j] == ranked[j];
      }
    }
  }

  /** The response holds `topN` of the unseen movies, or all of them when
      there are fewer; a negative `topN` drops that many from the end of the
      ranking, as a Python slice does. */
  lemma RecommendationCount(svc: Service, user: int, topN: int)
    ensures var r := Recommend(svc, user, topN);
      r.Ok? ==>
        var n := |UnseenMovies(svc.tables.value, user)|;
        |r.value| == if 0 <= topN then (if topN <= n then topN else n)
                     else (if n + topN >= 0 then n + topN else 0)
  {
    if Recommend(svc, user, topN).Ok? {
      var cands, ranked, top := SuccessfulRequest(svc, user, topN);
      var preds := ScoreAll(svc.model.value, user, cands);
      assert |preds| == |cands|;
      assert |ranked| == |preds| by {
        assert |multiset(ranked)| == |multiset(preds)|;
      }
      SliceLength(ranked, topN);
    }
  }

  /** A request that names no `top_n` returns the ten best unseen movies, or
      all of them when there are fewer than ten. */
  lemma DefaultRequestLength(svc: Service, user: int)
    ensures var r := Recommend(svc, user, DefaultTopN);
      r.Ok? ==>
        var n := |UnseenMovies(svc.tables.value, user)|;
        |r.value| <= DefaultTopN && (|r.value| < DefaultTopN ==> |r.value| == n)
  {
    RecommendationCount(svc, user, DefaultTopN);
  }

  /** The response is the best of the unseen movies: no unseen movie left out
      of it has a higher estimate than any movie in it, and one left out with
      an equal estimate comes later in catalog order. */
  lemma RecommendationsAreTopRated(svc: Service, user: int, topN: int)
    ensures var r := Recommend(svc, user, topN);
      r.Ok? ==> forall c, i ::
        c in UnseenMovies(svc.tables.value, user) && c !in ReturnedIds(r.value) && 0 <= i < |r.value| ==>
          && r.value[i].estimatedRating >= svc.model.value(user, c)
          && (r.value[i].estimatedRating == svc.model.value(user, c) ==>
                Precedes(UnseenMovies(svc.tables.value, user), r.value[i].movieId, c))
  {
    if Recommend(svc, user, topN).Ok? {
      var recs := Recommend(svc, user, topN).value;
      var cands, ranked, top := SuccessfulRequest(svc, user, topN);
      var scorer := svc.model.value;
      var preds := ScoreAll(scorer, user, cands);
      RankedMovies(scorer, user, cands);
      SortDescKeepsTieOrder(preds);
      assert forall k :: 0 <= k < |recs| ==> ReturnedIds(recs)[k] == top[k].movieId;
      forall c, i | c in cands && c !in ReturnedIds(recs) && 0 <= i < |recs|
        ensures recs[i].estimatedRating >= scorer(user, c)
        ensures recs[i].estimatedRating == scorer(user, c) ==> Precedes(cands, recs[i].movieId, c)
      {
        var x := Prediction(c, scorer(user, c));
        var j := LeftOutRanksBelow(ranked, |top|, ReturnedIds(recs), x, i);
        assert top[i] == ranked[i];
        if recs[i].estimatedRating == scorer(user, c) {
          assert InOrder(preds, ranked[i], ranked[j]);
          PrecedesOfScored(scorer, user, cands, ranked[i], ranked[j]);
        }
      }
    }
  }

  /** A prediction left out of the first `k` of a descending ranking stands
      after each of them, and its estimate is not higher. */
  lemma LeftOutRanksBelow(ranked: seq<Prediction>, k: nat, ids: seq<int>, x: Prediction, i: int)
    returns (j: nat)
    requires SortedDesc(ranked) && k <= |ranked| && |ids| == k
    requires forall m :: 0 <= m < k ==> ids[m] == ranked[m].movieId
    requires x in ranked && x.movieId !in ids && 0 <= i < k
    ensures i < j < |ranked| && ranked[j] == x
    ensures ranked[i].estimate >= x.estimate
  {
    j :| 0 <= j < |ranked| && ranked[j] == x;
    assert j >= k by {
      assert forall m :: 0 <= m < k ==> ranked[m].movieId in ids;
    }
  }

  /** `a` occurs before `b` in `s`. */
  predicate Precedes(s: seq<int>, a: int, b: int) {
    exists p, q :: 0 <= p < q < |s| && s[p] == a && s[q] == b
  }

  lemma PrecedesOfScored(scorer: Scorer, user: int, cands: seq<int>, x: Prediction, y: Prediction)
    requires InOrder(ScoreAll(scorer, user, cands), x, y)
    ensures Precedes(cands, x.movieId, y.movieId)
  {
    var preds := ScoreAll(scorer, user, cands);
    var p, q :| 0 <= p < q < |preds| && preds[p] == x && preds[q] == y;
    assert cands[p] == x.movieId && cands[q] == y.movieId;
  }

  /** Movies with equal estimates appear in the response in catalog order. */
  lemma TiedRecommendationsKeepCatalogOrder(svc: Service, user: int, topN: int)
    ensures var r := Recommend(svc, user, topN);
      r.Ok? ==> forall i, j ::
        0 <= i < j < |r.value| && r.value[i].estimatedRating == r.value[j].estimatedRating ==>
          Precedes(UnseenMovies(svc.tables.value, user), r.value[i].movieId, r.value[j].movieId)
  {
    if Recommend(svc, user, topN).Ok? {
      var recs := Recommend(svc, user, topN).value;
      var cands, ranked, top := SuccessfulRequest(svc, user, topN);
      var preds := ScoreAll(svc.model.value, user, cands);
      SortDescKeepsTieOrder(preds);
      forall i, j | 0 <= i < j < |recs| && recs[i].estimatedRating == recs[j].estimatedRating
        ensures Precedes(cands, recs[i].movieId, recs[j].movieId)
      {
        assert top[i] == ranked[i] && top[j] == ranked[j];
        assert InOrder(preds, ranked[i], ranked[j]);
        PrecedesOfScored(svc.model.value, user, cands, ranked[i], ranked[j]);
      }
    }
  }

  /** Dropping the rated movies from a duplicate-free id list leaves it duplicate-free. */
  lemma {:induction false} CandidatesKeepDistinct(ids: seq<int>, seen: seq<int>)
    requires Distinct(ids)
    ensures Distinct(Candidates(ids, seen))
  {
    if |ids| > 0 {
      CandidatesKeepDistinct(ids[1..], seen);
      var rest := Candidates(ids[1..], seen);
      if ids[0] !in seen {
        assert ids[0] !in ids[1..];
        var c := [ids[0]] + rest;
        forall i, j | 0 <= i < j < |c| ensures c[i] != c[j] {
          if i == 0 {
            assert c[j] == rest[j - 1];
          } else {
            assert c[i] == rest[i - 1] && c[j] == rest[j - 1];
          }
        }
      }
    }
  }

  /** After a successful load, no movie is recommended twice. */
  lemma LoadedRecommendationsAreDistinct(scorer: Scorer, rows: seq<Row>, user: int, topN: int)
    ensures var r := Recommend(Load(Some(scorer), Some(rows)), user, topN);
      r.Ok? ==> Distinct(ReturnedIds(r.value))
  {
    var svc := Load(Some(scorer), Some(rows));
    if Recommend(svc, user, topN).Ok? {
      var recs := Recommend(svc, user, topN).value;
      var cands, ranked, top := SuccessfulRequest(svc, user, topN);
      var preds := ScoreAll(scorer, user, cands);
      CandidatesKeepDistinct(MovieIds(svc.tables.value.catalog), SeenBy(svc.tables.value.interactions, user));
      assert UniqueMovies(preds);
      SortDescKeepsUniqueMovies(preds);
      forall i, j | 0 <= i < j < |recs| ensures ReturnedIds(recs)[i] != ReturnedIds(recs)[j] {
        assert top[i] == ranked[i] && top[j] == ranked[j];
      }
    }
  }

  /** A service whose loading failed answers every request as unavailable. */
  lemma FailedLoadIsUnavailable(modelArtifact: Option<Scorer>, table: Option<seq<Row>>, user: int, topN: int)
    requires modelArtifact.None? || table.None?
    ensures Recommend(Load(modelArtifact, table), user, topN) == Err(Unavailable)
    ensures StatusCode(Recommend(Load(modelArtifact, table), user, topN).failure) == 503
  {
  }

  /** The ratings table of the worked example below. */
  function ExampleRows(): seq<Row> {
    [Row(7, 1, "A", "urlA"), Row(8, 2, "B", "urlB"), Row(8, 1, "A", "urlA")]
  }

  /** The catalog the example table yields. */
  function ExampleCatalog(): seq<Entry> {
    [Entry(1, "A", "urlA"), Entry(2, "B", "urlB")]
  }

  lemma ExampleTables()
    ensures BuildCatalog(ExampleRows()) == ExampleCatalog()
    ensures SeenBy(Interactions(ExampleRows()), 7) == [1]
  {
    var rows := ExampleRows();
    var e1, e2 := Entry(1, "A", "urlA"), Entry(2, "B", "urlB");
    assert BuildCatalog(rows) == [e1, e2] by {
      assert rows[..0] == [] && rows[..1][..0] == [];
      assert BuildCatalog(rows[..1]) == [e1];
      assert rows[..2][..1] == rows[..1];
      assert MovieIds([e1]) == [1];
      assert BuildCatalog(rows[..2]) == [e1, e2];
      assert rows[..3] == rows && rows[..2] == rows[..|rows| - 1];
      assert MovieIds([e1, e2]) == [1, 2];
    }
    assert SeenBy(Interactions(rows), 7) == [1] by {
      var inter := Interactions(rows);
      assert inter == [Interaction(7, 1), Interaction(8, 2), Interaction(8, 1)];
      assert SeenBy(inter[2..], 7) == [];
      assert SeenBy(inter[1..], 7) == [];
    }
  }

  /** The worked request below, on the service state the example table loads into. */
  lemma ExampleRequest(scorer: Scorer)
    requires scorer(7, 2) == 4.5
    ensures Recommend(Service(Some(scorer), Some(Tables(ExampleCatalog(), Interactions(ExampleRows())))), 7, 5)
      == Ok([Recommendation(2, "B", "urlB", 4.5)])
  {
    var e1, e2 := Entry(1, "A", "urlA"), Entry(2, "B", "urlB");
    var p := Prediction(2, 4.5);
    var svc := Service(Some(scorer), Some(Tables(ExampleCatalog(), Interactions(ExampleRows()))));
    ExampleTables();
    assert UnseenMovies(svc.tables.value, 7) == [2] by {
      assert MovieIds([e1, e2]) == [1, 2];
      assert Candidates([2], [1]) == [2];
    }
    assert Slice(SortDesc(ScoreAll(scorer, 7, [2])), 5) == [p] by {
      assert ScoreAll(scorer, 7, [2]) == [p];
      assert SortDesc([p]) == [p];
    }
    assert MovieIds([e1, e2]) == [1, 2];
    assert Join([e1, e2], [p]) == [Recommendation(2, "B", "urlB", 4.5)];
    assert Recommend(svc, 7, 5) == Ok(Join([e1, e2], [p]));
  }

  /** A worked request: user 7 has rated movie 1 only, so movie 2 is the one
      recommendation, with its catalog metadata and the model's estimate. */
  lemma OneUnratedMovieExample(scorer: Scorer)
    requires scorer(7, 2) == 4.5
    ensures Recommend(Load(Some(scorer), Some(ExampleRows())), 7, 5)
      == Ok([Recommendation(2, "B", "urlB", 4.5)])
  {
    ExampleTables();
    ExampleRequest(scorer);
  }
}
